/** Member lookup in a token array. The array is the pre-order flattening of a tree whose
    spans nest; a lookup must not mistake a key inside a sibling for a direct member. */
module JsonLookup {
  import opened Bytes
  import opened Json

  datatype Kind = Object | Array | String | Primitive

  datatype Token = Token(kind: Kind, start: nat, end: nat, size: nat)

  /** A value; an object's members are key spans with values. */
  datatype Tree = Leaf(kind: Kind, start: nat, end: nat)
                | List(start: nat, end: nat, items: seq<Tree>)
                | Record(start: nat, end: nat, members: seq<Member>)

  datatype Member = Member(keyStart: nat, keyEnd: nat, value: Tree)

  // -------------------------------------------------------------- flattening

  function Flatten(t: Tree): (ts: seq<Token>)
    ensures |ts| >= 1 && ts[0].start == t.start && ts[0].end == t.end
    ensures ts[0].kind == Object <==> t.Record? || (t.Leaf? && t.kind == Object)
    ensures t.Record? ==> ts[0].size == |t.members|
    decreases t, 1
  {
    match t
    case Leaf(kind, start, end) => [Token(kind, start, end, 0)]
    case List(start, end, items) => [Token(Array, start, end, |items|)] + FlattenAll(items)
    case Record(start, end, members) => [Token(Object, start, end, |members|)] + FlattenMembers(members)
  }

  function FlattenAll(items: seq<Tree>): seq<Token>
    decreases items, 0
  {
    if items == [] then [] else Flatten(items[0]) + FlattenAll(items[1..])
  }

  function FlattenMembers(members: seq<Member>): seq<Token>
    decreases members, 0
  {
    if members == [] then []
    else FlattenMember(members[0]) + FlattenMembers(members[1..])
  }

  function FlattenMember(m: Member): (ts: seq<Token>)
    decreases m
  {
    KeyToken(m) + Flatten(m.value)
  }

  function KeyToken(m: Member): (ts: seq<Token>)
    ensures |ts| == 1
  {
    [Token(String, m.keyStart, m.keyEnd, 1)]
  }

  // ------------------------------------------------------------ nested spans

  predicate Nested(t: Tree)
    decreases t, 1
  {
    match t
    case Leaf(kind, start, end) => start <= end && kind != Object && kind != Array
    case List(start, end, items) => start < end && NestedAll(items, start, end)
    case Record(start, end, members) => start < end && NestedMembers(members, start, end)
  }

  /** Items in order inside lo..hi. */
  predicate NestedAll(items: seq<Tree>, lo: nat, hi: nat)
    decreases items, 0
  {
    items == [] ||
    (Nested(items[0]) && lo < items[0].start && items[0].end < hi && NestedAll(items[1..], items[0].end, hi))
  }

  /** Key, value, key, value, in order inside lo..hi. */
  predicate NestedMembers(members: seq<Member>, lo: nat, hi: nat)
    decreases members, 0
  {
    members == [] ||
    (var m := members[0];
     && lo < m.keyStart <= m.keyEnd < m.value.start && NestedMember(m) && m.value.end < hi
     && NestedMembers(members[1..], m.value.end, hi))
  }

  predicate NestedMember(m: Member)
    decreases m
  {
    Nested(m.value)
  }

  /** Every token under a value starts before the value ends. */
  lemma {:induction false} InsideStarts(t: Tree)
    requires Nested(t)
    ensures forall i :: 1 <= i < |Flatten(t)| ==> Flatten(t)[i].start < t.end
    decreases t, 1
  {
    match t
    case Leaf(_, _, _) =>
    case List(start, end, items) =>
      AllStarts(items, start, end);
      assert forall i :: 1 <= i < |Flatten(t)| ==> Flatten(t)[i] == FlattenAll(items)[i - 1];
    case Record(start, end, members) =>
      MemberStarts(members, start, end);
      assert forall i :: 1 <= i < |Flatten(t)| ==> Flatten(t)[i] == FlattenMembers(members)[i - 1];
  }

  lemma {:induction false} AllStarts(items: seq<Tree>, lo: nat, hi: nat)
    requires NestedAll(items, lo, hi)
    ensures forall i :: 0 <= i < |FlattenAll(items)| ==> FlattenAll(items)[i].start < hi
    decreases items, 0
  {
    if items != [] {
      var head, tail := Flatten(items[0]), FlattenAll(items[1..]);
      InsideStarts(items[0]);
      AllStarts(items[1..], items[0].end, hi);
      NestedSpan(items[0]);
      StartsJoined(head, tail, hi);
    }
  }

  lemma {:induction false} StartsJoined(a: seq<Token>, b: seq<Token>, hi: nat)
    requires (forall i :: 0 <= i < |a| ==> a[i].start < hi) && (forall i :: 0 <= i < |b| ==> b[i].start < hi)
    ensures forall i :: 0 <= i < |a + b| ==> (a + b)[i].start < hi
  {}

  lemma {:induction false} NestedSpan(t: Tree)
    requires Nested(t)
    ensures t.start <= t.end
  {}

  lemma {:induction false} MemberStarts(members: seq<Member>, lo: nat, hi: nat)
    requires NestedMembers(members, lo, hi)
    ensures forall i :: 0 <= i < |FlattenMembers(members)| ==> FlattenMembers(members)[i].start < hi
    decreases members, 0
  {
    if members != [] {
      var m := members[0];
      var head, tail := Flatten(m.value), FlattenMembers(members[1..]);
      InsideMember(m);
      NestedSpan(m.value);
      MemberStarts(members[1..], m.value.end, hi);
      StartsJoined(KeyToken(m), head, hi);
      StartsJoined(FlattenMember(m), tail, hi);
    }
  }

  lemma {:induction false} InsideMember(m: Member)
    requires NestedMember(m)
    ensures forall i :: 1 <= i < |Flatten(m.value)| ==> Flatten(m.value)[i].start < m.value.end
    decreases m
  {
    InsideStarts(m.value);
  }

  // ------------------------------------------------------------------ lookup

  function Text(body: bytes, start: nat, end: nat): bytes {
    if start <= end <= |body| then body[start..end] else []
  }

  predicate TokenIs(body: bytes, t: Token, name: bytes) {
    t.kind == String && t.end >= t.start && t.end - t.start == |name| && Text(body, t.start, t.end) == name
  }

  /** The first index at or after n whose token does not start before `end`. */
  function SkipFrom(toks: seq<Token>, n: nat, end: nat): (r: nat)
    requires n <= |toks|
    ensures n <= r <= |toks|
    ensures forall k :: n <= k < r ==> toks[k].start < end
    ensures r < |toks| ==> toks[r].start >= end
    decreases |toks| - n
  {
    if n < |toks| && toks[n].start < end then SkipFrom(toks, n + 1, end) else n
  }

  /** Skips a token and everything that starts before it ends. */
  method Skip(toks: seq<Token>, i: nat) returns (n: nat)
    requires i < |toks|
    ensures n == SkipFrom(toks, i + 1, toks[i].end)
  {
    var end := toks[i].end;
    n := i + 1;
    while n < |toks| && toks[n].start < end
      invariant i < n <= |toks|
      invariant SkipFrom(toks, n, end) == SkipFrom(toks, i + 1, end)
    {
      n := n + 1;
    }
  }

  /** The lookup over any token array: `left` keys still to look at, the next one at i. */
  function Scan(body: bytes, toks: seq<Token>, i: nat, left: nat, name: bytes): (r: int)
    requires i <= |toks|
    ensures -1 <= r < |toks|
    decreases left
  {
    if left == 0 || i + 1 >= |toks| then -1
    else if TokenIs(body, toks[i], name) then i + 1
    else Scan(body, toks, SkipFrom(toks, i + 2, toks[i + 1].end), left - 1, name)
  }

  function Lookup(body: bytes, toks: seq<Token>, obj: nat, name: bytes): (r: int)
    requires obj < |toks|
    ensures -1 <= r < |toks|
  {
    if toks[obj].kind != Object then -1 else Scan(body, toks, obj + 1, toks[obj].size, name)
  }

  /** On any token array, what a lookup finds stands behind a string token with that text, inside an object. */
  lemma {:induction false} LookupFinds(body: bytes, toks: seq<Token>, obj: nat, name: bytes)
    requires obj < |toks| && Lookup(body, toks, obj, name) >= 0
    ensures var r := Lookup(body, toks, obj, name);
            && toks[obj].kind == Object && obj + 2 <= r < |toks| && toks[r - 1].kind == String
            && toks[r - 1].start <= toks[r - 1].end && (name != [] ==> toks[r - 1].end <= |body|)
            && (toks[r - 1].end <= |body| ==> body[toks[r - 1].start..toks[r - 1].end] == name)
  {
    ScanFinds(body, toks, obj + 1, toks[obj].size, name);
  }

  lemma {:induction false} ScanFinds(body: bytes, toks: seq<Token>, i: nat, left: nat, name: bytes)
    requires i <= |toks| && Scan(body, toks, i, left, name) >= 0
    ensures var r := Scan(body, toks, i, left, name);
            i < r < |toks| && TokenIs(body, toks[r - 1], name)
    decreases left
  {
    hide TokenIs;
    if !TokenIs(body, toks[i], name) {
      ScanFinds(body, toks, SkipFrom(toks, i + 2, toks[i + 1].end), left - 1, name);
    }
  }

  /** The first direct member with this name. */
  function FirstMember(body: bytes, members: seq<Member>, name: bytes): (r: Option<nat>)
    ensures r.Some? ==> r.value < |members|
  {
    if members == [] then None
    else if TokenIs(body, KeyToken(members[0])[0], name) then Some(0)
    else match FirstMember(body, members[1..], name)
      case None => None
      case Some(k) => Some(k + 1)
  }

  /** The first member with a name is the first whose key, between its quotes, is that text. */
  lemma {:induction false} FirstMemberIff(body: bytes, members: seq<Member>, name: bytes, k: nat)
    requires forall i :: 0 <= i < |members| ==> members[i].keyStart <= members[i].keyEnd <= |body|
    ensures FirstMember(body, members, name) == Some(k) <==>
            && k < |members| && body[members[k].keyStart..members[k].keyEnd] == name
            && forall i :: 0 <= i < k ==> body[members[i].keyStart..members[i].keyEnd] != name
    ensures FirstMember(body, members, name) == None <==>
            forall i :: 0 <= i < |members| ==> body[members[i].keyStart..members[i].keyEnd] != name
  {
    if members != [] {
      var rest := members[1..];
      assert forall i :: 0 <= i < |rest| ==> rest[i] == members[i + 1];
      if k > 0 {
        FirstMemberIff(body, rest, name, k - 1);
      } else {
        FirstMemberIff(body, rest, name, 0);
      }
      assert forall i :: 0 < i < |members| ==> members[i] == rest[i - 1];
    }
  }

  /** Where the k-th member's value stands behind the object's own token. */
  function ValueOffset(members: seq<Member>, k: nat): nat
    requires k < |members|
  {
    |FlattenMembers(members[..k])| + 1
  }

  lemma {:induction false} FlattenMembersAppend(a: seq<Member>, b: seq<Member>)
    ensures FlattenMembers(a + b) == FlattenMembers(a) + FlattenMembers(b)
  {
    if a == [] {
      assert a + b == b;
    } else {
      FlattenMembersAppend(a[1..], b);
      assert (a + b)[1..] == a[1..] + b;
      ConcatAssoc(FlattenMember(a[0]), FlattenMembers(a[1..]), FlattenMembers(b));
    }
  }

  lemma {:induction false} FirstMemberFrom(body: bytes, members: seq<Member>, name: bytes, k: nat)
    requires k <= |members|
    requires forall j :: 0 <= j < k ==> !TokenIs(body, KeyToken(members[j])[0], name)
    ensures k == |members| ==> FirstMember(body, members, name) == None
    ensures k < |members| && TokenIs(body, KeyToken(members[k])[0], name) ==>
              FirstMember(body, members, name) == Some(k)
    decreases k
  {
    if k > 0 {
      assert forall j :: 0 <= j < k - 1 ==> members[1..][j] == members[j + 1];
      FirstMemberFrom(body, members[1..], name, k - 1);
    }
  }

  lemma {:induction false} NestedAt(members: seq<Member>, lo: nat, hi: nat, k: nat)
    requires NestedMembers(members, lo, hi) && k < |members|
    ensures Nested(members[k].value) && members[k].value.end < hi
    ensures k + 1 < |members| ==> members[k].value.end < members[k + 1].keyStart
    decreases k
  {
    if k > 0 {
      NestedAt(members[1..], members[0].value.end, hi, k - 1);
    }
  }

  /** The token array around one object: what precedes it, its flattening, what follows. */
  ghost predicate Holds(toks: seq<Token>, obj: nat, t: Tree) {
    obj + |Flatten(t)| <= |toks| && toks[obj..obj + |Flatten(t)|] == Flatten(t)
  }

  /** Where the k-th key stands, and the value behind it. */
  lemma {:induction false} MemberAt(toks: seq<Token>, obj: nat, t: Tree, k: nat)
    requires t.Record? && Holds(toks, obj, t) && k < |t.members|
    ensures var i := obj + 1 + |FlattenMembers(t.members[..k])|;
            && i + 1 + |Flatten(t.members[k].value)| == obj + 1 + |FlattenMembers(t.members[..k + 1])|
            && obj + 1 + |FlattenMembers(t.members[..k + 1])| <= obj + |Flatten(t)|
            && i + 1 < |toks| && toks[i] == KeyToken(t.members[k])[0]
            && Holds(toks, i + 1, t.members[k].value)
  {
    hide Flatten, FlattenMembers;
    var ms, m := t.members, t.members[k];
    var before, value, after := FlattenMembers(ms[..k]), Flatten(m.value), FlattenMembers(ms[k + 1..]);
    RecordAround(t, k);
    var first := [Flatten(t)[0]] + before;
    SliceOf(toks, obj, Flatten(t), first, KeyToken(m), value + after);
    ConcatAssoc(first + KeyToken(m), value, after);
    SliceOf(toks, obj, Flatten(t), first + KeyToken(m), value, after);
    var i := obj + 1 + |before|;
    assert toks[i] == toks[i..i + 1][0];
  }

  lemma {:induction false} SliceOf<T>(toks: seq<T>, at: nat, whole: seq<T>, a: seq<T>, b: seq<T>, c: seq<T>)
    requires at + |whole| <= |toks| && toks[at..at + |whole|] == whole && whole == a + b + c
    ensures toks[at + |a|..at + |a| + |b|] == b
  {
    forall j | 0 <= j < |b| ensures toks[at + |a| + j] == b[j] {
      assert toks[at + |a| + j] == toks[at..at + |whole|][|a| + j];
    }
  }

  /** An object's flattening, split at its k-th member. */
  lemma {:induction false} RecordAround(t: Tree, k: nat)
    requires t.Record? && k < |t.members|
    ensures var m := t.members[k];
            var before, after := FlattenMembers(t.members[..k]), FlattenMembers(t.members[k + 1..]);
            && Flatten(t) == [Flatten(t)[0]] + before + KeyToken(m) + (Flatten(m.value) + after)
            && |FlattenMembers(t.members[..k + 1])| == |before| + 1 + |Flatten(m.value)|
  {
    var ms, m := t.members, t.members[k];
    var before, after := FlattenMembers(ms[..k]), FlattenMembers(ms[k + 1..]);
    var first := [Flatten(t)[0]];
    assert Flatten(t) == first + FlattenMembers(ms);
    hide Flatten, FlattenMembers;
    assert ms == ms[..k] + [m] + ms[k + 1..] && ms[..k + 1] == ms[..k] + [m];
    FlattenMembersAppend(ms[..k] + [m], ms[k + 1..]);
    FlattenMembersAppend(ms[..k], [m]);
    OneMember(m);
    Regroup(first, before, KeyToken(m), Flatten(m.value), after);
  }

  lemma {:induction false} Regroup<T>(a: seq<T>, b: seq<T>, c: seq<T>, d: seq<T>, e: seq<T>)
    ensures a + (b + (c + d) + e) == a + b + c + (d + e)
  {}

  lemma {:induction false} OneMember(m: Member)
    ensures FlattenMembers([m]) == KeyToken(m) + Flatten(m.value)
  {
    assert [m][1..] == [];
    assert FlattenMember(m) + [] == FlattenMember(m);
  }

  lemma {:induction false} SubtreeStarts(toks: seq<Token>, at: nat, v: Tree)
    requires Nested(v) && Holds(toks, at, v)
    ensures toks[at].end == v.end
    ensures forall j :: at < j < at + |Flatten(v)| ==> toks[j].start < v.end
  {
    InsideStarts(v);
    hide Nested;
    var sub := toks[at..at + |Flatten(v)|];
    assert toks[at] == sub[0];
    assert forall j :: at < j < at + |Flatten(v)| ==> toks[j] == sub[j - at];
  }

  /** Skipping a member's value lands on the next key. */
  lemma {:induction false} SkipLands(toks: seq<Token>, obj: nat, t: Tree, k: nat)
    requires t.Record? && Nested(t) && Holds(toks, obj, t) && k + 1 < |t.members|
    requires obj + 2 + |FlattenMembers(t.members[..k])| < |toks|
    ensures var value := obj + 2 + |FlattenMembers(t.members[..k])|;
            SkipFrom(toks, value + 1, toks[value].end) == obj + 1 + |FlattenMembers(t.members[..k + 1])|
  {
    MemberAt(toks, obj, t, k);
    MemberAt(toks, obj, t, k + 1);
    NestedAt(t.members, t.start, t.end, k);
    hide Flatten, FlattenMembers, Nested, NestedMembers, Holds;
    var v := t.members[k].value;
    var value := obj + 2 + |FlattenMembers(t.members[..k])|;
    var next := obj + 1 + |FlattenMembers(t.members[..k + 1])|;
    SubtreeStarts(toks, value, v);
    assert toks[next].start >= v.end;
    var n := SkipFrom(toks, value + 1, v.end);
  }

  /** From the k-th key on. */
  lemma {:induction false} ScanOnTree(body: bytes, toks: seq<Token>, obj: nat, t: Tree, name: bytes, k: nat)
    requires t.Record? && Nested(t) && Holds(toks, obj, t) && k <= |t.members|
    requires forall j :: 0 <= j < k ==> !TokenIs(body, KeyToken(t.members[j])[0], name)
    requires k < |t.members| ==> obj + 1 + |FlattenMembers(t.members[..k])| <= |toks|
    ensures k < |t.members| ==>
              var r := Scan(body, toks, obj + 1 + |FlattenMembers(t.members[..k])|, |t.members| - k, name);
              match FirstMember(body, t.members, name)
              case None => r == -1
              case Some(m) => m < |t.members| && r == obj + 1 + ValueOffset(t.members, m)
                              && Holds(toks, r, t.members[m].value)
    ensures k == |t.members| ==> FirstMember(body, t.members, name) == None
    decreases |t.members| - k
  {
    hide TokenIs, FirstMember, Flatten, FlattenMembers, Nested, SkipFrom;
    FirstMemberFrom(body, t.members, name, k);
    if k < |t.members| {
      MemberAt(toks, obj, t, k);
      if !TokenIs(body, KeyToken(t.members[k])[0], name) {
        if k + 1 < |t.members| {
          SkipLands(toks, obj, t, k);
        }
        ScanOnTree(body, toks, obj, t, name, k + 1);
      }
    }
  }

  /** On a token array that holds an object's flattening, the lookup returns where the value of
      the first direct member with that name stands, never one nested in a sibling, and -1
      exactly when there is no such member. */
  lemma {:induction false} LookupOnTree(body: bytes, toks: seq<Token>, obj: nat, t: Tree, name: bytes)
    requires obj < |toks| && Holds(toks, obj, t) && Nested(t)
    ensures var r := Lookup(body, toks, obj, name);
            && (!t.Record? ==> r == -1)
            && (t.Record? ==>
                  match FirstMember(body, t.members, name)
                  case None => r == -1
                  case Some(k) => k < |t.members| && r == obj + 1 + ValueOffset(t.members, k)
                                  && Holds(toks, r, t.members[k].value))
  {
    assert toks[obj] == toks[obj..obj + |Flatten(t)|][0] == Flatten(t)[0];
    if t.Record? {
      assert t.members[..0] == [];
      ScanOnTree(body, toks, obj, t, name, 0);
    }
  }

  method ObjectGet(body: bytes, toks: seq<Token>, obj: nat, name: bytes) returns (r: int)
    requires obj < |toks|
    ensures r == Lookup(body, toks, obj, name)
  {
    hide TokenIs;
    if toks[obj].kind != Object {
      return -1;
    }
    var i, n := obj + 1, 0;
    while n < toks[obj].size && i < |toks|
      invariant 0 <= n <= toks[obj].size && 0 <= i <= |toks|
      invariant Scan(body, toks, i, toks[obj].size - n, name) == Lookup(body, toks, obj, name)
      decreases toks[obj].size - n
    {
      var value := i + 1;
      if value >= |toks| {
        return -1;
      }
      if TokenIs(body, toks[i], name) {
        return value;
      }
      i := Skip(toks, value);
      n := n + 1;
    }
    r := -1;
  }

  // -------------------------------------------------------- a string field

  /** The vendored tokeniser: the token array of a body, empty when it is refused. */
  type Tokenise = bytes -> seq<Token>

  /** The text between the quotes of a string field of the top object, or of the object it holds
      under `within`. */
  function RawField(body: bytes, toks: seq<Token>, within: Option<bytes>, field: bytes): Option<bytes> {
    if |body| == 0 || |body| > MAX_RESPONSE || toks == [] || toks[0].kind != Object then None
    else
      var target := if within.None? then 0 else Lookup(body, toks, 0, within.value);
      if target < 0 || toks[target].kind != Object then None
      else
        var v := Lookup(body, toks, target, field);
        if v < 0 || toks[v].kind != String then None else Some(Text(body, toks[v].start, toks[v].end))
  }

  /** The field's value when it unescapes and fits with its NUL. */
  function Decoded(raw: Option<bytes>, cap: nat): Option<bytes> {
    if raw.None? || Unescape(raw.value).None? || |Unescape(raw.value).value| >= cap then None
    else Unescape(raw.value)
  }

  function StringField(body: bytes, toks: seq<Token>, within: Option<bytes>, field: bytes, cap: nat): Option<bytes> {
    Decoded(RawField(body, toks, within, field), cap)
  }

  /** No field is read from a body past 65536 bytes. */
  lemma {:induction false} LongBodyUnread(body: bytes, toks: seq<Token>, within: Option<bytes>, field: bytes, cap: nat)
    requires |body| > 65536
    ensures StringField(body, toks, within, field, cap) == None
  {
    hide Lookup, Unescape;
  }

  /** The value of the first direct member with a name. */
  function MemberValue(body: bytes, t: Tree, name: bytes): Option<Tree> {
    if !t.Record? || FirstMember(body, t.members, name).None? then None
    else Some(t.members[FirstMember(body, t.members, name).value].value)
  }

  /** The text of a string leaf. */
  function LeafText(body: bytes, t: Option<Tree>): Option<bytes> {
    if t.Some? && t.value.Leaf? && t.value.kind == String then Some(Text(body, t.value.start, t.value.end)) else None
  }

  /** The same field as the tree has it: a direct string member of the root, or of the root's first
      direct member `within` when that is an object. */
  function FieldOnTree(body: bytes, t: Tree, within: Option<bytes>, field: bytes): Option<bytes> {
    if within.None? then LeafText(body, MemberValue(body, t, field))
    else if MemberValue(body, t, within.value).None? then None
    else LeafText(body, MemberValue(body, MemberValue(body, t, within.value).value, field))
  }

  /** Looking up a member lands on the flattening of its value. */
  lemma {:induction false} LookupLands(body: bytes, toks: seq<Token>, obj: nat, t: Tree, name: bytes)
    requires obj < |toks| && Holds(toks, obj, t) && Nested(t)
    ensures var r, v := Lookup(body, toks, obj, name), MemberValue(body, t, name);
            && (r >= 0 <==> v.Some?)
            && (v.Some? ==> Holds(toks, r, v.value) && Nested(v.value))
  {
    LookupOnTree(body, toks, obj, t, name);
    hide Lookup, FirstMember, Flatten, Holds;
    var v := MemberValue(body, t, name);
    if v.Some? {
      NestedAt(t.members, t.start, t.end, FirstMember(body, t.members, name).value);
    }
  }

  /** A value's own token tells what it is. */
  lemma {:induction false} TokenOfTree(toks: seq<Token>, at: nat, t: Tree)
    requires Holds(toks, at, t) && Nested(t)
    ensures at < |toks| && toks[at].start == t.start && toks[at].end == t.end
    ensures toks[at].kind == Object <==> t.Record?
    ensures toks[at].kind == String <==> t.Leaf? && t.kind == String
  {
    assert toks[at] == toks[at..at + |Flatten(t)|][0] == Flatten(t)[0];
  }

  /** On tokens that hold a tree at the front, a string field is read exactly where the tree has it. */
  lemma {:induction false} RawFieldOnTree(body: bytes, toks: seq<Token>, t: Tree, within: Option<bytes>, field: bytes)
    requires Holds(toks, 0, t) && Nested(t) && 0 < |body| <= MAX_RESPONSE
    ensures RawField(body, toks, within, field) == FieldOnTree(body, t, within, field)
  {
    hide Lookup, FirstMember, Flatten, Holds, Nested, MemberValue;
    TokenOfTree(toks, 0, t);
    NotRecord(body, t);
    if within.Some? {
      LookupLands(body, toks, 0, t, within.value);
      if MemberValue(body, t, within.value).Some? {
        var inner := MemberValue(body, t, within.value).value;
        TokenOfTree(toks, Lookup(body, toks, 0, within.value), inner);
        NotRecord(body, inner);
        FieldAt(body, toks, Lookup(body, toks, 0, within.value), inner, field);
      }
    } else {
      FieldAt(body, toks, 0, t, field);
    }
  }

  lemma {:induction false} FieldAt(body: bytes, toks: seq<Token>, at: nat, t: Tree, field: bytes)
    requires Holds(toks, at, t) && Nested(t) && at < |toks|
    ensures var v := Lookup(body, toks, at, field);
            LeafText(body, MemberValue(body, t, field)) ==
            if v < 0 || toks[v].kind != String then None else Some(Text(body, toks[v].start, toks[v].end))
  {
    hide Lookup, FirstMember, Flatten, Holds, Nested, MemberValue;
    LookupLands(body, toks, at, t, field);
    if MemberValue(body, t, field).Some? {
      TokenOfTree(toks, Lookup(body, toks, at, field), MemberValue(body, t, field).value);
    }
  }

  lemma {:induction false} NotRecord(body: bytes, t: Tree)
    ensures !t.Record? ==> forall name :: MemberValue(body, t, name) == None
  {}

  /** What a string field of a JSON tree yields: the unescaped text of the first direct member with
      that name, and nothing in every other case. */
  lemma {:induction false} StringFieldOnTree(body: bytes, toks: seq<Token>, t: Tree, within: Option<bytes>,
                                             field: bytes, cap: nat)
    requires Holds(toks, 0, t) && Nested(t) && 0 < |body| <= MAX_RESPONSE
    ensures StringField(body, toks, within, field, cap) == Decoded(FieldOnTree(body, t, within, field), cap)
  {
    RawFieldOnTree(body, toks, t, within, field);
  }

  /** A field read into a buffer: what the buffer then holds, filled or refused part way. */
  method GetString(body: bytes, toks: seq<Token>, within: Option<bytes>, field: bytes, out: array<byte>)
    returns (ok: bool, len: nat)
    requires out.Length > 0
    modifies out
    ensures len < out.Length
    ensures ok == StringField(body, toks, within, field, out.Length).Some?
    ensures ok ==> out[..len] == StringField(body, toks, within, field, out.Length).value && out[len] == 0
    ensures match RawField(body, toks, within, field)
            case None => out[..] == old(out[..]) && len == 0
            case Some(raw) =>
              && len == |Partial(raw, out.Length - 1)| && out[..len] == Partial(raw, out.Length - 1)
              && forall k :: len + (if ok then 1 else 0) <= k < out.Length ==> out[k] == old(out[k])
  {
    hide Lookup, Unescape, Text, Partial;
    ok, len := false, 0;
    if |body| == 0 || |body| > MAX_RESPONSE {
      return;
    }
    if |toks| < 1 || toks[0].kind != Object {
      return;
    }
    var target := 0;
    if within.Some? {
      target := ObjectGet(body, toks, 0, within.value);
      if target < 0 || toks[target].kind != Object {
        return;
      }
    }
    target := ObjectGet(body, toks, target, field);
    if target < 0 || toks[target].kind != String {
      return;
    }
    ok, len := UnescapeInto(Text(body, toks[target].start, toks[target].end), out);
  }
}
