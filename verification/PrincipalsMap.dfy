/** The principals map: a hand-parsed subset of YAML. The loader looks for a duplicate
    account by rescanning the lines above; it is proved to be the single-pass parser that
    keeps a set of names, and that parser to accept exactly the well-formed files. */
module PrincipalsMap {
  import opened Bytes
  import opened Cutting

  const MAX_MAP_FILE := 256 * 1024
  const MAX_MAP_PRINCIPALS := 64
  const MAX_PRINCIPAL_LEN := 128

  const SINGLE: byte := 39
  const DASH: byte := 45
  const OPEN: byte := 91
  const CLOSE: byte := 93

  datatype Status = Ok | Malformed

  // ------------------------------------------------------------- blanks and quotes

  predicate IsBlank(c: byte) {
    c == SPACE || c == TAB || c == CR
  }

  function TrimLeft(s: bytes): bytes {
    if s != [] && IsBlank(s[0]) then TrimLeft(s[1..]) else s
  }

  function TrimRight(s: bytes): bytes {
    if s != [] && IsBlank(s[|s| - 1]) then TrimRight(s[..|s| - 1]) else s
  }

  function Trimmed(s: bytes): bytes {
    TrimRight(TrimLeft(s))
  }

  /** Where a comment starts at or after i, given the quotes open there; |s| if nowhere. */
  function CommentAt(s: bytes, i: nat, inSingle: bool, inDouble: bool): (k: nat)
    requires i <= |s|
    ensures i <= k <= |s|
    decreases |s| - i
  {
    if i == |s| then i
    else if s[i] == SINGLE && !inDouble then CommentAt(s, i + 1, !inSingle, inDouble)
    else if s[i] == QUOTE && !inSingle then CommentAt(s, i + 1, inSingle, !inDouble)
    else if s[i] == HASH && !inSingle && !inDouble && (i == 0 || s[i - 1] == SPACE || s[i - 1] == TAB) then i
    else CommentAt(s, i + 1, inSingle, inDouble)
  }

  function Uncommented(line: bytes): bytes {
    line[..CommentAt(line, 0, false, false)]
  }

  /** The colon that ends a key, outside quotes; |s| if there is none. */
  function ColonAt(s: bytes, i: nat, inSingle: bool, inDouble: bool): (k: nat)
    requires i <= |s|
    ensures i <= k <= |s|
    decreases |s| - i
  {
    if i == |s| then i
    else if s[i] == SINGLE && !inDouble then ColonAt(s, i + 1, !inSingle, inDouble)
    else if s[i] == QUOTE && !inSingle then ColonAt(s, i + 1, inSingle, !inDouble)
    else if s[i] == COLON && !inSingle && !inDouble then i
    else ColonAt(s, i + 1, inSingle, inDouble)
  }

  function KeySplit(s: bytes): Option<(bytes, bytes)> {
    var k := ColonAt(s, 0, false, false);
    if k == |s| then None else Some((Trimmed(s[..k]), Trimmed(s[k + 1..])))
  }

  /** A matching pair of quotes is stripped; escapes and inner quotes are refused. */
  function Unquoted(s: bytes): Option<bytes> {
    if s == [] || (s[0] != QUOTE && s[0] != SINGLE) then Some(s)
    else if |s| < 2 || s[|s| - 1] != s[0] then None
    else
      var inner := s[1..|s| - 1];
      if s[0] in inner || BACKSLASH in inner then None else Some(inner)
  }

  /** A value that must be there: unquoted and not empty. */
  function Scalar(s: bytes): Option<bytes> {
    if Unquoted(s) == Some([]) then None else Unquoted(s)
  }

  /** The names of a comma-separated list. */
  function Scalars(fields: seq<bytes>): (r: Option<seq<bytes>>)
    ensures r.Some? ==> |r.value| == |fields|
  {
    if fields == [] then Some([])
    else match (Scalars(fields[..|fields| - 1]), Scalar(Trimmed(fields[|fields| - 1])))
      case (Some(ps), Some(p)) => Some(ps + [p])
      case _ => None
  }

  /** "[...]": nothing, or names between commas. */
  function FlowList(value: bytes): Option<seq<bytes>>
    requires value != [] && value[0] == OPEN
  {
    if value[|value| - 1] != CLOSE then None
    else
      var inner := Trimmed(value[1..|value| - 1]);
      if inner == [] then Some([]) else Scalars(Pieces(inner, COMMA))
  }

  // --------------------------------------------------------------- one line

  datatype Value = OpenList | Empty | Flow(names: seq<bytes>)
  datatype Line = Blank | Item(principal: bytes) | Account(name: bytes, value: Value) | Bad

  function ValueOf(v: bytes): Option<Value> {
    if v == [] then Some(OpenList)
    else if v == Ascii("null") || v == Ascii("~") then Some(Empty)
    else if v[0] == OPEN then
      match FlowList(v)
      case None => None
      case Some(ps) => Some(Flow(ps))
    else None
  }

  function Indent(s: bytes): (n: nat)
    ensures n <= |s|
  {
    if s != [] && (s[0] == SPACE || s[0] == TAB) then 1 + Indent(s[1..]) else 0
  }

  function ItemOf(item: bytes): Line {
    if item != [] && item[0] != SPACE then Bad
    else match Scalar(Trimmed(item))
      case None => Bad
      case Some(p) => Item(p)
  }

  function AccountOf(content: bytes): Line {
    match KeySplit(content)
    case None => Bad
    case Some((key, value)) =>
      match (Scalar(key), ValueOf(value))
      case (Some(name), Some(v)) => Account(name, v)
      case _ => Bad
  }

  function Classify(raw: bytes): Line {
    var text := Uncommented(raw);
    var indent := Indent(text);
    var content := Trimmed(text);
    if TAB in text[..indent] then Bad
    else if content == [] then Blank
    else if content[0] == DASH then ItemOf(content[1..])
    else if indent > 0 then Bad
    else AccountOf(content)
  }

  // ------------------------------------------------------ the single-pass parser

  datatype Entry = Entry(found: bool, principals: seq<bytes>)

  datatype Parse = Failed | Parsing(seen: set<bytes>, haveOpen: bool, ours: bool, entry: Entry)

  function Store(e: Entry, p: bytes): Entry {
    if !e.found || |e.principals| >= MAX_MAP_PRINCIPALS || |p| >= MAX_PRINCIPAL_LEN then e
    else Entry(e.found, e.principals + [p])
  }

  function StoreAll(e: Entry, ps: seq<bytes>): Entry {
    if ps == [] then e else Store(StoreAll(e, ps[..|ps| - 1]), ps[|ps| - 1])
  }

  function OnLine(st: Parse, l: Line, account: bytes): Parse {
    if st.Failed? || l.Bad? then Failed
    else match l
      case Blank => st
      case Item(p) =>
        if !st.haveOpen then Failed
        else if st.ours then st.(entry := Store(st.entry, p)) else st
      case Account(name, value) =>
        if name in st.seen then Failed
        else
          var ours := name == account;
          var e := if ours then st.entry.(found := true) else st.entry;
          Parsing(st.seen + {name}, value.OpenList?, ours,
                  if ours && value.Flow? then StoreAll(e, value.names) else e)
      case Bad => Failed
  }

  function ParseLines(lines: seq<bytes>, account: bytes): Parse {
    if lines == [] then Parsing({}, false, false, Entry(false, []))
    else OnLine(ParseLines(lines[..|lines| - 1], account), Classify(lines[|lines| - 1]), account)
  }

  const NOTHING := Entry(false, [])

  /** What loading a file's bytes answers. */
  function LoadOf(data: bytes, account: bytes): (Status, Entry) {
    if |data| >= MAX_MAP_FILE then (Malformed, NOTHING)
    else match ParseLines(Pieces(data, LF), account)
      case Failed => (Malformed, NOTHING)
      case Parsing(_, _, _, e) => (Ok, e)
  }

  // -------------------------------------------------------- what a file means

  /** The account names, top to bottom. */
  function Accounts(lines: seq<bytes>): seq<bytes> {
    if lines == [] then []
    else
      var names, l := Accounts(lines[..|lines| - 1]), Classify(lines[|lines| - 1]);
      if l.Account? then names + [l.name] else names
  }

  /** The nearest account line above the end. */
  function LastAccount(lines: seq<bytes>): Line {
    if lines == [] then Blank
    else
      var l := Classify(lines[|lines| - 1]);
      if l.Account? then l else LastAccount(lines[..|lines| - 1])
  }

  predicate ListIsOpen(lines: seq<bytes>) {
    LastAccount(lines).Account? && LastAccount(lines).value.OpenList?
  }

  predicate Distinct(names: seq<bytes>) {
    forall i, j :: 0 <= i < j < |names| ==> names[i] != names[j]
  }

  /** Every line is one of the three shapes, items stand under an open list, no account twice. */
  predicate WellFormed(lines: seq<bytes>) {
    && (forall i :: 0 <= i < |lines| ==> !Classify(lines[i]).Bad?)
    && (forall i :: 0 <= i < |lines| && Classify(lines[i]).Item? ==> ListIsOpen(lines[..i]))
    && Distinct(Accounts(lines))
  }

  /** Every principal the file lists for the account, in order. */
  function Listed(lines: seq<bytes>, account: bytes): seq<bytes> {
    if lines == [] then []
    else
      var init, l := lines[..|lines| - 1], Classify(lines[|lines| - 1]);
      var ps := Listed(init, account);
      if l.Item? && LastAccount(init).Account? && LastAccount(init).name == account then ps + [l.principal]
      else if l.Account? && l.name == account && l.value.Flow? then ps + l.value.names
      else ps
  }

  /** Those short enough to be kept. */
  function Short(ps: seq<bytes>): seq<bytes> {
    if ps == [] then []
    else
      var r, p := Short(ps[..|ps| - 1]), ps[|ps| - 1];
      if |p| < MAX_PRINCIPAL_LEN then r + [p] else r
  }

  function EntryOf(lines: seq<bytes>, account: bytes): Entry {
    Entry(account in Accounts(lines), First(Short(Listed(lines, account)), MAX_MAP_PRINCIPALS))
  }

  lemma {:induction false} ShortAppend(a: seq<bytes>, b: seq<bytes>)
    ensures Short(a + b) == Short(a) + Short(b)
  {
    if b == [] {
      assert a + b == a;
    } else {
      var init, p := b[..|b| - 1], b[|b| - 1];
      ShortAppend(a, init);
      assert (a + b)[..|a + b| - 1] == a + init;
      ConcatAssoc(Short(a), Short(init), [p]);
    }
  }

  /** Storing one by one keeps the first 64 of the short ones. */
  lemma {:induction false} StoreAllKeepsFirst(ps: seq<bytes>, more: seq<bytes>)
    ensures StoreAll(Entry(true, First(Short(ps), MAX_MAP_PRINCIPALS)), more)
            == Entry(true, First(Short(ps + more), MAX_MAP_PRINCIPALS))
  {
    if more == [] {
      assert ps + more == ps;
    } else {
      var init, p := more[..|more| - 1], more[|more| - 1];
      StoreAllKeepsFirst(ps, init);
      assert (ps + more)[..|ps + more| - 1] == ps + init;
    }
  }

  lemma {:induction false} ListedNothing(lines: seq<bytes>, account: bytes)
    requires account !in Accounts(lines)
    ensures Listed(lines, account) == []
    ensures LastAccount(lines).Account? ==> LastAccount(lines).name != account
  {
    if lines != [] {
      hide Classify;
      ListedNothing(lines[..|lines| - 1], account);
    }
  }

  ghost predicate Tracks(st: Parse, lines: seq<bytes>, account: bytes) {
    && st.Parsing?
    && st.seen == (set n | n in Accounts(lines))
    && st.haveOpen == ListIsOpen(lines)
    && st.ours == (LastAccount(lines).Account? && LastAccount(lines).name == account)
    && st.entry == EntryOf(lines, account)
  }

  lemma {:induction false} Snoc(lines: seq<bytes>, raw: bytes)
    ensures (lines + [raw])[..|lines + [raw]| - 1] == lines
    ensures (lines + [raw])[|lines + [raw]| - 1] == raw
  {}

  lemma {:induction false} WellFormedSnoc(lines: seq<bytes>, raw: bytes)
    ensures WellFormed(lines + [raw]) <==>
            var l := Classify(raw);
            && WellFormed(lines) && !l.Bad?
            && (l.Item? ==> ListIsOpen(lines))
            && (l.Account? ==> l.name !in Accounts(lines))
  {
    Snoc(lines, raw);
    hide Classify, ListIsOpen;
    var all := lines + [raw];
    var names, l := Accounts(lines), Classify(raw);
    assert forall i :: 0 <= i < |lines| ==> all[i] == lines[i] && all[..i] == lines[..i];
    assert all[|lines|] == raw && all[..|lines|] == lines;
    if WellFormed(all) {
      assert forall i :: 0 <= i < |names| ==> Accounts(all)[i] == names[i];
      assert l.Account? ==> Accounts(all)[|names|] == l.name;
      forall i | 0 <= i < |lines| && Classify(lines[i]).Item? ensures ListIsOpen(lines[..i]) {
        assert ListIsOpen(all[..i]);
      }
      forall i | 0 <= i < |lines| ensures !Classify(lines[i]).Bad? {
        assert !Classify(all[i]).Bad?;
      }
    }
  }

  lemma {:induction false} LastAccountListed(lines: seq<bytes>)
    ensures LastAccount(lines).Account? ==> LastAccount(lines).name in Accounts(lines)
  {
    if lines != [] {
      hide Classify;
      LastAccountListed(lines[..|lines| - 1]);
    }
  }

  /** What one more line does to the entry a prefix of the file has built. */
  lemma {:induction false} EntryGrows(lines: seq<bytes>, raw: bytes, account: bytes)
    requires Classify(raw).Account? ==> Classify(raw).name !in Accounts(lines)
    ensures var l, last, e := Classify(raw), LastAccount(lines), EntryOf(lines, account);
            EntryOf(lines + [raw], account) ==
            if l.Item? && last.Account? && last.name == account then Store(e, l.principal)
            else if l.Account? && l.name == account && l.value.Flow? then StoreAll(e.(found := true), l.value.names)
            else if l.Account? && l.name == account then e.(found := true)
            else e
  {
    Snoc(lines, raw);
    LastAccountListed(lines);
    hide Classify, LastAccount, StoreAll, Store, First, Short;
    var l, ps, e := Classify(raw), Listed(lines, account), EntryOf(lines, account);
    if l.Item? && LastAccount(lines).Account? && LastAccount(lines).name == account {
      StoreOne(e, l.principal);
      StoreAllKeepsFirst(ps, [l.principal]);
    } else if l.Account? && l.name == account {
      ListedNothing(lines, account);
      assert account in Accounts(lines) + [account];
      if l.value.Flow? {
        StoreAllKeepsFirst(ps, l.value.names);
      }
    }
  }

  lemma {:induction false} StoreOne(e: Entry, p: bytes)
    ensures StoreAll(e, [p]) == Store(e, p)
  {
    assert [p][..0] == [];
  }

  lemma {:induction false} LastSnoc(lines: seq<bytes>, raw: bytes)
    ensures LastAccount(lines + [raw]) == if Classify(raw).Account? then Classify(raw) else LastAccount(lines)
    ensures Accounts(lines + [raw]) ==
            if Classify(raw).Account? then Accounts(lines) + [Classify(raw).name] else Accounts(lines)
  {
    Snoc(lines, raw);
  }

  lemma {:induction false} StepTracks(st: Parse, lines: seq<bytes>, raw: bytes, account: bytes)
    requires Tracks(st, lines, account) && WellFormed(lines)
    ensures var r := OnLine(st, Classify(raw), account);
            if WellFormed(lines + [raw]) then Tracks(r, lines + [raw], account) else r.Failed?
  {
    hide Classify, StoreAll, Store, WellFormed, EntryOf, LastAccount, Accounts;
    WellFormedSnoc(lines, raw);
    LastSnoc(lines, raw);
    var l, names := Classify(raw), Accounts(lines);
    if !(l.Account? && l.name in names) {
      EntryGrows(lines, raw, account);
    }
    if l.Account? {
      assert (set n | n in names + [l.name]) == (set n | n in names) + {l.name};
    }
  }

  /** The single pass accepts exactly the well-formed files, and its entry is the
      first 64 short principals the file lists for the account. */
  lemma {:induction false} ParseIff(lines: seq<bytes>, account: bytes)
    ensures ParseLines(lines, account).Parsing? <==> WellFormed(lines)
    ensures WellFormed(lines) ==> Tracks(ParseLines(lines, account), lines, account)
  {
    hide Classify, OnLine, WellFormed;
    if lines == [] {
      EmptyFile(account);
    } else {
      var init, raw := lines[..|lines| - 1], lines[|lines| - 1];
      ParseIff(init, account);
      assert lines == init + [raw];
      WellFormedSnoc(init, raw);
      if WellFormed(init) {
        StepTracks(ParseLines(init, account), init, raw, account);
      } else {
        FailedStays(raw, account);
      }
    }
  }

  lemma {:induction false} EmptyFile(account: bytes)
    ensures WellFormed([]) && Tracks(ParseLines([], account), [], account)
  {}

  lemma {:induction false} FailedStays(raw: bytes, account: bytes)
    ensures OnLine(Failed, Classify(raw), account) == Failed
  {}

  /** A loaded file is well formed, so its accounts are pairwise distinct; anything else
      leaves an empty entry. */
  lemma {:induction false} LoadIff(data: bytes, account: bytes)
    ensures var lines := Pieces(data, LF);
            LoadOf(data, account) ==
            if |data| < 262_144 && WellFormed(lines) then (Ok, EntryOf(lines, account)) else (Malformed, NOTHING)
    ensures LoadOf(data, account).0 == Ok ==> Distinct(Accounts(Pieces(data, LF)))
  {
    ParseIff(Pieces(data, LF), account);
  }

  // -------------------------------------------------------------- the rescan

  /** The account name a rescanned line shows, by the rescan's own shorter reading. */
  function RescanName(line: bytes): Option<bytes> {
    var content := Trimmed(Uncommented(line));
    if content == [] || content[0] == DASH then None
    else if line != [] && (line[0] == SPACE || line[0] == TAB) then None
    else match KeySplit(content)
      case None => None
      case Some((key, _)) => Unquoted(key)
  }

  predicate Shows(lines: seq<bytes>, name: bytes) {
    exists i :: 0 <= i < |lines| && RescanName(lines[i]) == Some(name)
  }

  /** On every line the loader accepts, the two readings agree. */
  lemma {:induction false} RescanAgrees(line: bytes)
    requires !Classify(line).Bad?
    ensures RescanName(line) == if Classify(line).Account? then Some(Classify(line).name) else None
  {
    hide KeySplit, CommentAt, ValueOf;
    var text := Uncommented(line);
    assert Trimmed([]) == [];
    if Indent(text) == 0 && Trimmed(text) != [] {
      assert text != [] && text[0] == line[0];
    }
  }

  lemma {:induction false} RescanFinds(lines: seq<bytes>, name: bytes)
    requires WellFormed(lines)
    ensures Shows(lines, name) <==> name in Accounts(lines)
  {
    hide Classify, RescanName, ListIsOpen;
    if lines != [] {
      var init, raw := lines[..|lines| - 1], lines[|lines| - 1];
      assert lines == init + [raw];
      WellFormedSnoc(init, raw);
      RescanFinds(init, name);
      RescanAgrees(raw);
      assert forall i :: 0 <= i < |init| ==> lines[i] == init[i];
      assert lines[|init|] == raw;
    }
  }

  /** What the duplicate check needs: above an accepted prefix of lines, the rescan of the
      bytes up to the current line finds exactly the names of the set. */
  lemma {:induction false} RescanIsSet(data: bytes, pos: nat, account: bytes, name: bytes)
    requires pos <= |data| && AtStart(data, LF, pos)
    requires ParseLines(Before(data, LF, pos), account).Parsing?
    ensures Shows(Pieces(data[..pos], LF), name) <==> name in ParseLines(Before(data, LF, pos), account).seen
  {
    hide WellFormed, Accounts, EntryOf, LastAccount, ListIsOpen, Shows, ParseLines, Classify;
    var lines := Before(data, LF, pos);
    ParseIff(lines, account);
    RescanFinds(lines, name);
    if pos == 0 {
      assert Pieces(data[..0], LF) == [[]] == lines + [[]];
    } else {
      PiecesSnoc(data[..pos - 1], [], LF);
      assert data[..pos - 1] + [LF] + [] == data[..pos];
    }
    EmptyTailShowsNothing(lines, name);
  }

  lemma {:induction false} EmptyTailShowsNothing(lines: seq<bytes>, name: bytes)
    ensures Shows(lines + [[]], name) <==> Shows(lines, name)
  {
    RescanOfEmpty();
    hide RescanName;
    var all := lines + [[]];
    assert forall i :: 0 <= i < |lines| ==> all[i] == lines[i];
  }

  lemma {:induction false} RescanOfEmpty()
    ensures RescanName([]) == None
  {}

  // ------------------------------------------------------------- the C loops

  method StripComment(line: bytes) returns (r: bytes)
    ensures r == Uncommented(line)
  {
    var inSingle, inDouble, i := false, false, 0;
    while i < |line|
      invariant 0 <= i <= |line|
      invariant CommentAt(line, i, inSingle, inDouble) == CommentAt(line, 0, false, false)
    {
      var c := line[i];
      if c == SINGLE && !inDouble {
        inSingle := !inSingle;
      } else if c == QUOTE && !inSingle {
        inDouble := !inDouble;
      } else if c == HASH && !inSingle && !inDouble && (i == 0 || line[i - 1] == SPACE || line[i - 1] == TAB) {
        return line[..i];
      }
      i := i + 1;
    }
    r := line;
  }

  method Trim(s: bytes) returns (r: bytes)
    ensures r == Trimmed(s)
  {
    var a := 0;
    while a < |s| && IsBlank(s[a])
      invariant 0 <= a <= |s| && TrimLeft(s[a..]) == TrimLeft(s)
    {
      assert s[a..][1..] == s[a + 1..];
      a := a + 1;
    }
    r := s[a..];
    assert r == TrimLeft(s);
    var b := |r|;
    assert r[..b] == r;
    while b > 0 && IsBlank(r[b - 1])
      invariant 0 <= b <= |r| && TrimRight(r[..b]) == TrimRight(r)
    {
      assert r[..b][..b - 1] == r[..b - 1];
      b := b - 1;
    }
    r := r[..b];
  }

  method Unquote(s: bytes) returns (r: Option<bytes>)
    ensures r == Unquoted(s)
  {
    if |s| == 0 {
      return Some(s);
    }
    var quote := s[0];
    if quote != QUOTE && quote != SINGLE {
      return Some(s);
    }
    if |s| < 2 || s[|s| - 1] != quote {
      return None;
    }
    var inner, i := s[1..|s| - 1], 1;
    while i + 1 < |s|
      invariant 1 <= i <= |s| - 1
      invariant quote !in inner[..i - 1] && BACKSLASH !in inner[..i - 1]
    {
      assert inner[i - 1] == s[i];
      if s[i] == quote || s[i] == BACKSLASH {
        return None;
      }
      i := i + 1;
    }
    assert inner[..i - 1] == inner;
    r := Some(inner);
  }

  method SplitKey(s: bytes) returns (r: Option<(bytes, bytes)>)
    ensures r == KeySplit(s)
  {
    var inSingle, inDouble, i := false, false, 0;
    while i < |s|
      invariant 0 <= i <= |s|
      invariant ColonAt(s, i, inSingle, inDouble) == ColonAt(s, 0, false, false)
    {
      var c := s[i];
      if c == SINGLE && !inDouble {
        inSingle := !inSingle;
      } else if c == QUOTE && !inSingle {
        inDouble := !inDouble;
      } else if c == COLON && !inSingle && !inDouble {
        var key := Trim(s[..i]);
        var value := Trim(s[i + 1..]);
        return Some((key, value));
      }
      i := i + 1;
    }
    r := None;
  }

  /** Scans the lines above for the same account name. */
  method AccountSeen(data: bytes, upto: nat, name: bytes) returns (seen: bool)
    requires upto <= |data| && AtStart(data, LF, upto)
    ensures seen == Shows(Pieces(data[..upto], LF), name)
  {
    hide KeySplit, Uncommented, Trimmed, Unquoted, RescanName, Before;
    var s, pos := data[..upto], 0;
    BeforeStart(s, LF);
    while pos < upto
      invariant AtStart(s, LF, pos) && !Shows(Before(s, LF, pos), name)
      decreases upto + 1 - pos
    {
      var len := LineLength(s, pos, LF);
      var line := s[pos..pos + len];
      BeforeNext(s, LF, pos, len);
      BeforePrefix(s, LF, pos + len + 1);
      ghost var done := Before(s, LF, pos);
      pos := pos + len + 1;
      var shown := NameShown(line);
      assert (done + [line])[|done|] == line;
      if shown == Some(name) {
        return true;
      }
    }
    if pos == upto {
      BeforeNext(s, LF, upto, 0);
      assert s[upto..upto] == [];
      EmptyTailShowsNothing(Before(s, LF, upto), name);
    }
    BeforeEnd(s, LF);
    seen := false;
  }

  /** One rescanned line. */
  method NameShown(line: bytes) returns (shown: Option<bytes>)
    ensures shown == RescanName(line)
  {
    var content := StripComment(line);
    content := Trim(content);
    if |content| == 0 || content[0] == DASH {
      return None;
    }
    if |line| > 0 && (line[0] == SPACE || line[0] == TAB) {
      return None;
    }
    var split := SplitKey(content);
    if split.None? {
      return None;
    }
    shown := Unquote(split.value.0);
  }

  class Principals {
    const principals: array<bytes>
    var count: nat
    var found: bool

    ghost predicate Valid()
      reads this
    {
      principals.Length == MAX_MAP_PRINCIPALS && count <= MAX_MAP_PRINCIPALS
    }

    ghost function View(): Entry
      reads this, principals
      requires Valid()
    {
      Entry(found, principals[..count])
    }

    constructor ()
      ensures Valid() && View() == NOTHING && fresh(principals)
    {
      principals := new bytes[MAX_MAP_PRINCIPALS](_ => []);
      count, found := 0, false;
    }

    method Clear()
      requires Valid()
      modifies this
      ensures Valid() && View() == NOTHING
    {
      count, found := 0, false;
    }

    method StoreOne(p: bytes)
      requires Valid()
      modifies this`count, principals
      ensures Valid() && View() == Store(old(View()), p)
    {
      if !found || count >= MAX_MAP_PRINCIPALS || |p| >= MAX_PRINCIPAL_LEN {
        return;
      }
      principals[count] := p;
      count := count + 1;
    }

    /** "[a, b]" : stores as it goes, so a refusal may leave part of the list behind. */
    method ParseFlow(value: bytes, collect: bool) returns (ok: bool)
      requires Valid() && value != [] && value[0] == OPEN
      modifies this`count, principals
      ensures Valid() && ok == FlowList(value).Some?
      ensures ok ==> View() == if collect then StoreAll(old(View()), FlowList(value).value) else old(View())
    {
      hide Scalar, Store, Trimmed, Unquoted, Collected, Scalars;
      if value[|value| - 1] != CLOSE {
        return false;
      }
      var inner := Trim(value[1..|value| - 1]);
      if |inner| == 0 {
        return true;
      }
      var start := 0;
      ghost var e := View();
      CollectedStart(inner, collect, e);
      while true
        invariant Valid() && start <= |inner| && AtStart(inner, COMMA, start)
        invariant Collected(inner, start, collect, e, View())
        decreases |inner| + 1 - start
      {
        var len := LineLength(inner, start, COMMA);
        var end := start + len;
        CollectedStep(inner, start, len, collect, e, View());
        var field := Trim(inner[start..end]);
        var principal := Unquote(field);
        ScalarOf(field);
        if principal.None? || |principal.value| == 0 {
          return false;
        }
        if collect {
          StoreOne(principal.value);
        }
        if end >= |inner| {
          break;
        }
        start := end + 1;
      }
      CollectedEnd(inner, collect, e, View());
      ok := true;
    }

    /** What the fields before `start` have made of the entry. */
    static ghost predicate Collected(inner: bytes, start: nat, collect: bool, e: Entry, now: Entry) {
      && start <= |inner| + 1
      && var ps := Scalars(Before(inner, COMMA, start));
         ps.Some? && now == if collect then StoreAll(e, ps.value) else e
    }

    static lemma {:induction false} CollectedStart(inner: bytes, collect: bool, e: Entry)
      ensures Collected(inner, 0, collect, e, e)
    {}

    static lemma {:induction false} CollectedStep(inner: bytes, start: nat, len: nat, collect: bool, e: Entry,
                                                  now: Entry)
      requires Collected(inner, start, collect, e, now) && AtStart(inner, COMMA, start)
      requires start + len <= |inner| && COMMA !in inner[start..start + len]
      requires start + len == |inner| || inner[start + len] == COMMA
      ensures var p := Scalar(Trimmed(inner[start..start + len]));
              if p.None? then Scalars(Pieces(inner, COMMA)).None?
              else Collected(inner, start + len + 1, collect, e, if collect then Store(now, p.value) else now)
    {
      hide Scalar, Trimmed, Pieces, StoreAll, Store, Scalars, Before;
      var done, field := Before(inner, COMMA, start), inner[start..start + len];
      BeforeNext(inner, COMMA, start, len);
      BeforePrefix(inner, COMMA, start + len + 1);
      ScalarsSnoc(done, field, Pieces(inner, COMMA));
      if Scalar(Trimmed(field)).Some? {
        StoreSnoc(e, Scalars(done).value, Scalar(Trimmed(field)).value);
      }
    }

    static lemma {:induction false} CollectedEnd(inner: bytes, collect: bool, e: Entry, now: Entry)
      requires Collected(inner, |inner| + 1, collect, e, now)
      ensures var ps := Scalars(Pieces(inner, COMMA));
              ps.Some? && now == if collect then StoreAll(e, ps.value) else e
    {
      BeforeEnd(inner, COMMA);
    }

    static lemma {:induction false} ScalarOf(field: bytes)
      ensures Scalar(field) == if Unquoted(field).None? || |Unquoted(field).value| == 0 then None else Unquoted(field)
    {}

    static lemma {:induction false} StoreSnoc(e: Entry, ps: seq<bytes>, p: bytes)
      ensures StoreAll(e, ps + [p]) == Store(StoreAll(e, ps), p)
    {
      assert (ps + [p])[..|ps|] == ps;
    }

    /** One more field: refused, it refuses every longer list. */
    static lemma {:induction false} ScalarsSnoc(done: seq<bytes>, field: bytes, all: seq<bytes>)
      requires Scalars(done).Some? && done + [field] <= all
      ensures Scalar(Trimmed(field)).None? ==> Scalars(all).None?
      ensures Scalar(Trimmed(field)).Some? ==>
                Scalars(done + [field]) == Some(Scalars(done).value + [Scalar(Trimmed(field)).value])
    {
      assert (done + [field])[..|done|] == done;
      if Scalar(Trimmed(field)).None? {
        ScalarsPrefix(done + [field], all);
      }
    }

    static lemma {:induction false} ScalarsPrefix(some: seq<bytes>, all: seq<bytes>)
      requires some <= all && Scalars(some).None?
      ensures Scalars(all).None?
      decreases |all|
    {
      if |some| < |all| {
        ScalarsPrefix(some, all[..|all| - 1]);
      } else {
        assert some == all;
      }
    }
  }

  /** A prefix of lines that fails makes the whole file fail. */
  lemma {:induction false} FailurePersists(some: seq<bytes>, all: seq<bytes>, account: bytes)
    requires some <= all && ParseLines(some, account).Failed?
    ensures ParseLines(all, account).Failed?
    decreases |all|
  {
    hide Classify, OnLine;
    if |some| < |all| {
      FailurePersists(some, all[..|all| - 1], account);
      FailedStays(all[|all| - 1], account);
    } else {
      assert some == all;
    }
  }

  /** The loader's state at the start of a line is the single pass over the lines above. */
  ghost predicate Loaded(data: bytes, pos: nat, account: bytes, haveOpen: bool, ours: bool, e: Entry) {
    && AtStart(data, LF, pos)
    && var st := ParseLines(Before(data, LF, pos), account);
       st.Parsing? && st.haveOpen == haveOpen && st.ours == ours && st.entry == e
  }

  ghost function Above(data: bytes, pos: nat, account: bytes): Parse
    requires pos <= |data| + 1
  {
    ParseLines(Before(data, LF, pos), account)
  }

  lemma {:induction false} LoadedStep(data: bytes, pos: nat, len: nat, account: bytes)
    requires AtStart(data, LF, pos) && pos + len <= |data| && LF !in data[pos..pos + len]
    requires pos + len == |data| || data[pos + len] == LF
    ensures AtStart(data, LF, pos + len + 1)
    ensures Above(data, pos + len + 1, account) ==
            OnLine(Above(data, pos, account), Classify(data[pos..pos + len]), account)
    ensures Above(data, pos + len + 1, account).Failed? ==> ParseLines(Pieces(data, LF), account).Failed?
  {
    hide Classify, OnLine, Before;
    BeforeNext(data, LF, pos, len);
    Snoc(Before(data, LF, pos), data[pos..pos + len]);
    BeforePrefix(data, LF, pos + len + 1);
    if Above(data, pos + len + 1, account).Failed? {
      FailurePersists(Before(data, LF, pos + len + 1), Pieces(data, LF), account);
    }
  }

  /** A "- principal" line's text after the dash. */
  method ReadItem(item: bytes) returns (principal: Option<bytes>)
    ensures ItemOf(item) == match principal case None => Bad case Some(p) => Item(p)
  {
    hide Trimmed, Unquoted;
    if |item| > 0 && item[0] != SPACE {
      return None;
    }
    var text := Trim(item);
    principal := Unquote(text);
    if principal.Some? && |principal.value| == 0 {
      principal := None;
    }
  }

  /** What a line turned out to be, before the open account is consulted. */
  datatype Reading = Skip | ItemText(item: bytes) | AccountText(content: bytes) | Refuse

  function ReadingOf(raw: bytes): Reading {
    var text := Uncommented(raw);
    var indent := Indent(text);
    var content := Trimmed(text);
    if TAB in text[..indent] then Refuse
    else if content == [] then Skip
    else if content[0] == DASH then ItemText(content[1..])
    else if indent > 0 then Refuse
    else AccountText(content)
  }

  lemma {:induction false} ClassifyByReading(raw: bytes)
    ensures Classify(raw) == match ReadingOf(raw)
                             case Refuse => Bad
                             case Skip => Blank
                             case ItemText(item) => ItemOf(item)
                             case AccountText(content) => AccountOf(content)
  {
    hide Uncommented, Trimmed, ItemOf, AccountOf;
  }

  method ReadLine(raw: bytes) returns (r: Reading)
    ensures r == ReadingOf(raw)
  {
    hide Uncommented, Trimmed;
    var text := StripComment(raw);
    var indent, tab := 0, false;
    while indent < |text| && (text[indent] == SPACE || text[indent] == TAB)
      invariant 0 <= indent <= |text| && Indent(text) == indent + Indent(text[indent..])
      invariant tab == (TAB in text[..indent])
    {
      assert text[indent..][1..] == text[indent + 1..];
      assert text[..indent + 1] == text[..indent] + [text[indent]];
      tab := tab || text[indent] == TAB;
      indent := indent + 1;
    }
    assert Indent(text) == indent;
    if tab {
      return Refuse;
    }
    var content := Trim(text);
    if |content| == 0 {
      return Skip;
    }
    if content[0] == DASH {
      return ItemText(content[1..]);
    }
    if indent > 0 {
      return Refuse;
    }
    r := AccountText(content);
  }

  /** One line; `ok` is false for every refusal the loader makes. */
  method LoadLine(data: bytes, pos: nat, len: nat, account: bytes, out: Principals, haveOpen: bool, ours: bool)
    returns (ok: bool, haveOpen': bool, ours': bool)
    requires out.Valid() && pos + len <= |data| && Loaded(data, pos, account, haveOpen, ours, out.View())
    modifies out, out.principals
    ensures out.Valid()
    ensures var st := OnLine(Above(data, pos, account), Classify(data[pos..pos + len]), account);
            if ok then st.Parsing? && st.haveOpen == haveOpen' && st.ours == ours' && st.entry == out.View()
            else st.Failed?
  {
    hide Classify, Store, StoreAll, ItemOf, AccountOf, ReadingOf, Before, ParseLines;
    ok, haveOpen', ours' := true, haveOpen, ours;
    ClassifyByReading(data[pos..pos + len]);
    var r := ReadLine(data[pos..pos + len]);
    match r {
      case Refuse => ok := false;
      case Skip =>
      case ItemText(item) =>
        var principal := ReadItem(item);
        if principal.None? || !haveOpen {
          ok := false;
        } else if ours {
          out.StoreOne(principal.value);
        }
      case AccountText(content) =>
        ok, haveOpen', ours' := LoadAccount(data, pos, content, account, out);
    }
  }

  /** The rest of an "account:" line, checked in the source's order. */
  method LoadAccount(data: bytes, pos: nat, content: bytes, account: bytes, out: Principals)
    returns (ok: bool, haveOpen: bool, ours: bool)
    requires out.Valid() && pos <= |data| && AtStart(data, LF, pos)
    requires Above(data, pos, account).Parsing? && Above(data, pos, account).entry == out.View()
    modifies out, out.principals
    ensures out.Valid()
    ensures var st := OnLine(Above(data, pos, account), AccountOf(content), account);
            if ok then st.Parsing? && st.haveOpen == haveOpen && st.ours == ours && st.entry == out.View()
            else st.Failed?
  {
    hide KeySplit, Unquoted, FlowList, Store, StoreAll, Before, ParseLines, Shows, Pieces, Ascii, Scalar;
    ok, haveOpen, ours := false, false, false;
    var split := SplitKey(content);
    if split.None? {
      return;
    }
    var value := split.value.1;
    var name := Unquote(split.value.0);
    Principals.ScalarOf(split.value.0);
    if name.None? || |name.value| == 0 {
      return;
    }
    var seen := AccountSeen(data, pos, name.value);
    RescanIsSet(data, pos, account, name.value);
    if seen {
      return;
    }
    ours := name.value == account;
    if ours {
      out.found := true;
    }
    if |value| == 0 {
      ok, haveOpen := true, true;
    } else if value == Ascii("null") || value == Ascii("~") {
      ok := true;
    } else if value[0] == OPEN {
      ok := out.ParseFlow(value, ours);
    }
  }

  /** The loader: every line of the file, or an empty entry. */
  method Load(data: bytes, account: bytes, out: Principals) returns (status: Status)
    requires out.Valid()
    modifies out, out.principals
    ensures out.Valid() && (status, out.View()) == LoadOf(data, account)
  {
    hide OnLine, Classify, ParseLines, Before, Pieces;
    out.Clear();
    var n := |data|;
    if n >= MAX_MAP_FILE {
      return Malformed;
    }
    var pos, haveOpen, ours := 0, false, false;
    LoadedStart(data, account);
    while pos <= n
      invariant pos <= n + 1 && out.Valid()
      invariant Loaded(data, pos, account, haveOpen, ours, out.View())
      decreases n + 1 - pos
    {
      var len := LineLength(data, pos, LF);
      var ok, open', ours' := LoadLine(data, pos, len, account, out, haveOpen, ours);
      LoadedStep(data, pos, len, account);
      if !ok {
        out.Clear();
        return Malformed;
      }
      haveOpen, ours := open', ours';
      pos := pos + len + 1;
      if len == 0 && pos > n {
        break;
      }
    }
    BeforeEnd(data, LF);
    status := Ok;
  }

  lemma {:induction false} LoadedStart(data: bytes, account: bytes)
    ensures Loaded(data, 0, account, false, false, NOTHING)
  {}

  /** Whether a certificate principal and a map entry spell the same C string. */
  method Allow(p: Principals, names: seq<bytes>) returns (allowed: bool)
    requires p.Valid()
    ensures allowed <==> p.found && exists i, j :: 0 <= i < |names| && 0 <= j < p.count
                                                   && CStr(names[i]) == CStr(p.principals[j])
  {
    if !p.found {
      return false;
    }
    var i := 0;
    while i < |names|
      invariant 0 <= i <= |names|
      invariant forall k, j :: 0 <= k < i && 0 <= j < p.count ==> CStr(names[k]) != CStr(p.principals[j])
    {
      var j := 0;
      while j < p.count
        invariant 0 <= j <= p.count
        invariant forall m :: 0 <= m < j ==> CStr(names[i]) != CStr(p.principals[m])
      {
        if CStr(names[i]) == CStr(p.principals[j]) {
          return true;
        }
        j := j + 1;
      }
      i := i + 1;
    }
    allowed := false;
  }
}
