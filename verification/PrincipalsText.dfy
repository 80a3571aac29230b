/** The principals map written out with quoted names, in block or inline style, as an
    independent statement of what the loader reads. */
module PrincipalsText {
  import opened Bytes
  import opened Cutting
  import opened PrincipalsMap

  /** An account's principals, one to a line or in brackets on the account's own. */
  datatype Group = Block(account: bytes, principals: seq<bytes>) | Inline(account: bytes, principals: seq<bytes>)

  /** What may stand between double quotes: anything on one line but a quote or a backslash. */
  predicate Quotable(name: bytes) {
    name != [] && QUOTE !in name && BACKSLASH !in name && LF !in name
  }

  function Quoted(name: bytes): bytes {
    [QUOTE] + name + [QUOTE]
  }

  function AccountLine(name: bytes): bytes {
    Quoted(name) + [COLON]
  }

  function ItemLine(name: bytes): bytes {
    [SPACE, SPACE, DASH, SPACE] + Quoted(name)
  }

  function ItemLines(names: seq<bytes>): seq<bytes> {
    if names == [] then [] else ItemLines(names[..|names| - 1]) + [ItemLine(names[|names| - 1])]
  }

  /** Quoted names between commas. */
  function FlowText(names: seq<bytes>): bytes {
    if names == [] then []
    else if |names| == 1 then Quoted(names[0])
    else FlowText(names[..|names| - 1]) + [COMMA] + Quoted(names[|names| - 1])
  }

  function InlineLine(name: bytes, names: seq<bytes>): bytes {
    AccountLine(name) + ([SPACE, OPEN] + FlowText(names) + [CLOSE])
  }

  function GroupLines(g: Group): seq<bytes> {
    match g
    case Block(account, principals) => [AccountLine(account)] + ItemLines(principals)
    case Inline(account, principals) => [InlineLine(account, principals)]
  }

  function MapLines(groups: seq<Group>): seq<bytes> {
    if groups == [] then []
    else MapLines(groups[..|groups| - 1]) + GroupLines(groups[|groups| - 1])
  }

  /** Each line with its line feed. */
  function Joined(lines: seq<bytes>): bytes {
    if lines == [] then [] else Joined(lines[..|lines| - 1]) + lines[|lines| - 1] + [LF]
  }

  function MapText(groups: seq<Group>): bytes {
    Joined(MapLines(groups))
  }

  predicate QuotableGroup(g: Group) {
    Quotable(g.account) && forall i :: 0 <= i < |g.principals| ==> Quotable(g.principals[i])
  }

  predicate QuotableAll(groups: seq<Group>) {
    forall i :: 0 <= i < |groups| ==> QuotableGroup(groups[i])
  }

  predicate CommaFree(names: seq<bytes>) {
    forall i :: 0 <= i < |names| ==> COMMA !in names[i]
  }

  /** The maps that load: no account twice, and no comma in a name written inline, where a comma
      separates even between quotes. */
  predicate Loadable(groups: seq<Group>) {
    && Distinct(Names(groups))
    && forall i :: 0 <= i < |groups| && groups[i].Inline? ==> CommaFree(groups[i].principals)
  }

  function Names(groups: seq<Group>): (names: seq<bytes>)
    ensures |names| == |groups|
  {
    seq(|groups|, i requires 0 <= i < |groups| => groups[i].account)
  }

  /** The principals under an account's heading. */
  function PrincipalsOf(groups: seq<Group>, account: bytes): seq<bytes> {
    if groups == [] then []
    else
      var g, ps := groups[|groups| - 1], PrincipalsOf(groups[..|groups| - 1], account);
      if g.account == account then ps + g.principals else ps
  }

  // ------------------------------------------------------------ lines classify back

  /** Nothing inside double quotes starts a comment or ends a key. */
  lemma {:induction false} InsideQuotes(s: bytes, i: nat, k: nat)
    requires i <= k < |s| && s[k] == QUOTE && forall j :: i <= j < k ==> s[j] != QUOTE
    ensures CommentAt(s, i, false, true) == CommentAt(s, k + 1, false, false)
    ensures ColonAt(s, i, false, true) == ColonAt(s, k + 1, false, false)
    decreases k - i
  {
    if i < k {
      InsideQuotes(s, i + 1, k);
    }
  }

  lemma {:induction false} QuotedAt(s: bytes, i: nat, name: bytes)
    requires Quotable(name) && i + |name| + 2 <= |s| && s[i..i + |name| + 2] == Quoted(name)
    ensures CommentAt(s, i, false, false) == CommentAt(s, i + |name| + 2, false, false)
    ensures ColonAt(s, i, false, false) == ColonAt(s, i + |name| + 2, false, false)
  {
    var q := s[i..i + |name| + 2];
    assert q[0] == s[i] == QUOTE && q[|name| + 1] == s[i + |name| + 1] == QUOTE;
    assert forall j :: i + 1 <= j < i + 1 + |name| ==> s[j] == q[j - i] == name[j - i - 1] && name[j - i - 1] in name;
    InsideQuotes(s, i + 1, i + 1 + |name|);
  }

  lemma {:induction false} TrimmedAlready(s: bytes)
    requires s != [] ==> !IsBlank(s[0]) && !IsBlank(s[|s| - 1])
    ensures Trimmed(s) == s
  {}

  lemma {:induction false} TrimmedBehind(blank: byte, s: bytes)
    requires IsBlank(blank)
    ensures Trimmed([blank] + s) == Trimmed(s)
  {
    assert ([blank] + s)[1..] == s;
  }

  lemma {:induction false} QuotedReads(name: bytes)
    requires Quotable(name)
    ensures Scalar(Quoted(name)) == Some(name) && Trimmed(Quoted(name)) == Quoted(name)
  {
    var q := Quoted(name);
    assert q[1..|q| - 1] == name;
    TrimmedAlready(q);
  }

  lemma {:induction false} AccountLineReads(name: bytes)
    requires Quotable(name)
    ensures Classify(AccountLine(name)) == Account(name, OpenList)
  {
    var line, q := AccountLine(name), Quoted(name);
    hide CommentAt, ColonAt, Trimmed, Scalar;
    assert line[0..|name| + 2] == q;
    QuotedAt(line, 0, name);
    NoComment(line, |line| - 1);
    assert line[..|line|] == line;
    TrimmedAlready(line);
    ColonHere(line, |line| - 1);
    assert line[..|line| - 1] == q && line[|line|..] == [];
    QuotedReads(name);
    TrimmedAlready([]);
  }

  // ------------------------------------------------------------------ inline lists

  /** One bad field refuses the list. */
  lemma {:induction false} BadField(fields: seq<bytes>, k: nat)
    requires k < |fields| && Scalar(Trimmed(fields[k])).None?
    ensures Scalars(fields).None?
  {
    hide Scalar, Trimmed;
    var init := fields[..|fields| - 1];
    if k < |init| {
      assert init[k] == fields[k];
      BadField(init, k);
    }
  }

  lemma {:induction false} TrimRightPrefix(s: bytes)
    ensures TrimRight(s) <= s
  {
    if s != [] && IsBlank(s[|s| - 1]) {
      TrimRightPrefix(s[..|s| - 1]);
    }
  }

  /** A quote cut off from its partner. */
  lemma {:induction false} TornQuote(rest: bytes)
    requires QUOTE !in rest
    ensures Scalar(Trimmed([QUOTE] + rest)).None?
  {
    var s := [QUOTE] + rest;
    assert TrimLeft(s) == s;
    TrimRightPrefix(s);
    QuoteStays(s);
    var t := TrimRight(s);
    assert t[0] == s[0] == QUOTE;
    if |t| >= 2 {
      assert t[|t| - 1] == s[|t| - 1] == rest[|t| - 2] && rest[|t| - 2] in rest;
    }
  }

  lemma {:induction false} QuoteStays(s: bytes)
    requires s != [] && s[0] == QUOTE
    ensures TrimRight(s) != []
  {
    if IsBlank(s[|s| - 1]) {
      QuoteStays(s[..|s| - 1]);
    }
  }

  /** What one quoted name becomes between commas. */
  lemma {:induction false} QuotedPieces(name: bytes)
    requires Quotable(name)
    ensures COMMA !in name ==> Pieces(Quoted(name), COMMA) == [Quoted(name)]
    ensures COMMA in name ==> |Pieces(Quoted(name), COMMA)| > 0 && Scalar(Trimmed(Pieces(Quoted(name), COMMA)[0])).None?
  {
    hide Scalar, Trimmed, Pieces;
    var q := Quoted(name);
    if COMMA !in name {
      PiecesOne(q, COMMA);
    } else {
      FirstPiece(q, COMMA);
      var k := NextSep(q, COMMA);
      TornAt(name, k);
      TornQuote(q[1..k]);
    }
  }

  lemma {:induction false} TornAt(name: bytes, k: nat)
    requires Quotable(name) && k < |name| + 2 && Quoted(name)[k] == COMMA
    ensures k > 0 && Quoted(name)[..k] == [QUOTE] + Quoted(name)[1..k] && QUOTE !in Quoted(name)[1..k]
  {
    assert forall j :: 1 <= j < k ==> Quoted(name)[j] == name[j - 1] && name[j - 1] in name;
  }

  /** Names written between commas read back exactly when none holds a comma. */
  lemma {:induction false} FlowReads(names: seq<bytes>)
    requires names != [] && forall i :: 0 <= i < |names| ==> Quotable(names[i])
    ensures Scalars(Pieces(FlowText(names), COMMA)) == if CommaFree(names) then Some(names) else None
  {
    hide Quotable, Quoted, Pieces, Scalar, Trimmed, Scalars, CommaFree;
    var init, name := names[..|names| - 1], names[|names| - 1];
    var fields := Pieces(Quoted(name), COMMA);
    QuotedPieces(name);
    assert names == init + [name];
    CommaFreeSnoc(init, name);
    if init == [] {
      NoFields();
      LastField([], [], name);
      assert [] + fields == fields;
    } else {
      FlowReads(init);
      PiecesJoin(FlowText(init), Quoted(name), COMMA);
      LastField(Pieces(FlowText(init), COMMA), init, name);
    }
  }

  lemma {:induction false} NoFields()
    ensures Scalars([]) == Some([]) && CommaFree([])
  {}

  lemma {:induction false} CommaFreeSnoc(names: seq<bytes>, name: bytes)
    ensures CommaFree(names + [name]) <==> CommaFree(names) && COMMA !in name
  {
    var all := names + [name];
    assert all[|names|] == name && forall i :: 0 <= i < |names| ==> all[i] == names[i];
    if CommaFree(all) {
      assert forall i :: 0 <= i < |names| ==> COMMA !in all[i];
    }
  }

  lemma {:induction false} LastField(done: seq<bytes>, names: seq<bytes>, name: bytes)
    requires Quotable(name) && Scalars(done) == if CommaFree(names) then Some(names) else None
    ensures Scalars(done + Pieces(Quoted(name), COMMA)) ==
            if CommaFree(names) && COMMA !in name then Some(names + [name]) else None
  {
    hide Quotable, Quoted, Pieces, Scalar, Trimmed, Scalars, CommaFree;
    var fields := Pieces(Quoted(name), COMMA);
    QuotedPieces(name);
    QuotedReads(name);
    if Scalars(done).None? {
      Principals.ScalarsPrefix(done, done + fields);
    } else if COMMA in name {
      BadField(done + fields, |done|);
    } else {
      Principals.ScalarsSnoc(done, Quoted(name), done + fields);
    }
  }

  /** Nothing in the list starts a comment. */
  lemma {:induction false} FlowSkips(s: bytes, i: nat, names: seq<bytes>)
    requires forall k :: 0 <= k < |names| ==> Quotable(names[k])
    requires i + |FlowText(names)| <= |s| && s[i..i + |FlowText(names)|] == FlowText(names)
    ensures CommentAt(s, i, false, false) == CommentAt(s, i + |FlowText(names)|, false, false)
  {
    hide Quotable, CommentAt;
    if |names| == 1 {
      QuotedAt(s, i, names[0]);
    } else if names != [] {
      var init, name := names[..|names| - 1], names[|names| - 1];
      var k := i + |FlowText(init)|;
      SliceTail(s, i, FlowText(init), Quoted(name));
      FlowSkips(s, i, init);
      CommaSkips(s, k);
      QuotedAt(s, k + 1, name);
    }
  }

  lemma {:induction false} SliceTail(s: bytes, i: nat, head: bytes, tail: bytes)
    requires i + |head| + 1 + |tail| <= |s| && s[i..i + |head| + 1 + |tail|] == head + [COMMA] + tail
    ensures s[i..i + |head|] == head && s[i + |head|] == COMMA
    ensures s[i + |head| + 1..i + |head| + 1 + |tail|] == tail
  {
    var all := s[i..i + |head| + 1 + |tail|];
    assert s[i..i + |head|] == all[..|head|] && s[i + |head|] == all[|head|];
    assert s[i + |head| + 1..i + |head| + 1 + |tail|] == all[|head| + 1..];
  }

  lemma {:induction false} CommaSkips(s: bytes, k: nat)
    requires k < |s| && (s[k] == COMMA || s[k] == COLON || s[k] == SPACE || s[k] == OPEN)
    ensures CommentAt(s, k, false, false) == CommentAt(s, k + 1, false, false)
  {}

  lemma {:induction false} FlowEnds(names: seq<bytes>)
    requires names != []
    ensures FlowText(names) != [] && FlowText(names)[0] == QUOTE
    ensures FlowText(names)[|FlowText(names)| - 1] == QUOTE
  {
    if |names| > 1 {
      FlowEnds(names[..|names| - 1]);
    }
  }

  lemma {:induction false} BracketsRead(names: seq<bytes>)
    requires forall k :: 0 <= k < |names| ==> Quotable(names[k])
    ensures var value := [OPEN] + FlowText(names) + [CLOSE];
            && Trimmed([SPACE] + value) == value
            && ValueOf(value) == if CommaFree(names) then Some(Flow(names)) else None
  {
    hide Quotable, Trimmed, Pieces, Scalars, CommaFree;
    var flow := FlowText(names);
    var value := [OPEN] + flow + [CLOSE];
    TrimmedBehind(SPACE, value);
    TrimmedAlready(value);
    assert value[1..|value| - 1] == flow;
    assert Ascii("null")[0] == 110 && Ascii("~")[0] == 126;
    if names == [] {
      NoFields();
      TrimmedAlready([]);
    } else {
      FlowEnds(names);
      TrimmedAlready(flow);
      FlowReads(names);
    }
  }

  lemma {:induction false} InlineShape(name: bytes, names: seq<bytes>)
    ensures var line, k, flow := InlineLine(name, names), |name| + 2, FlowText(names);
            && |line| == k + 4 + |flow|
            && line[0..k] == Quoted(name) && line[..k] == Quoted(name) && line[k + 3..k + 3 + |flow|] == flow
            && line[0] == QUOTE && line[k] == COLON && line[k + 1] == SPACE && line[k + 2] == OPEN
            && line[k + 3 + |flow|] == CLOSE
            && line[k + 1..] == [SPACE] + ([OPEN] + flow + [CLOSE])
  {
    hide FlowText;
  }

  lemma {:induction false} InlineLineReads(name: bytes, names: seq<bytes>)
    requires Quotable(name) && forall k :: 0 <= k < |names| ==> Quotable(names[k])
    ensures Classify(InlineLine(name, names)) == if CommaFree(names) then Account(name, Flow(names)) else Bad
  {
    hide CommentAt, ColonAt, Trimmed, Scalar, ValueOf, Quotable, CommaFree, FlowText, Quoted, InlineLine;
    var line, k, flow := InlineLine(name, names), |name| + 2, FlowText(names);
    InlineShape(name, names);
    QuotedAt(line, 0, name);
    CommaSkips(line, k);
    CommaSkips(line, k + 1);
    CommaSkips(line, k + 2);
    FlowSkips(line, k + 3, names);
    NoComment(line, |line| - 1);
    assert line[..|line|] == line;
    TrimmedAlready(line);
    ColonHere(line, k);
    QuotedReads(name);
    BracketsRead(names);
  }

  /** At a lone last byte that is no quote and no hash, neither search turns anything up before it. */
  lemma {:induction false} NoComment(s: bytes, k: nat)
    requires k + 1 == |s| && s[k] != HASH && s[k] != QUOTE && s[k] != SINGLE
    ensures CommentAt(s, k, false, false) == |s|
  {}

  lemma {:induction false} ColonHere(s: bytes, k: nat)
    requires k < |s| && s[k] == COLON
    ensures ColonAt(s, k, false, false) == k
  {}

  lemma {:induction false} ItemLineReads(name: bytes)
    requires Quotable(name)
    ensures Classify(ItemLine(name)) == Item(name)
  {
    var line, q := ItemLine(name), Quoted(name);
    hide Trimmed, Scalar, CommentAt;
    assert line[4..4 + |name| + 2] == q;
    QuotedAt(line, 4, name);
    DashReached(line);
    CommentAtEnd(line);
    assert line[..|line|] == line;
    var content := [DASH, SPACE] + q;
    assert line == [SPACE] + ([SPACE] + content);
    TrimmedBehind(SPACE, [SPACE] + content);
    TrimmedBehind(SPACE, content);
    TrimmedAlready(content);
    assert content[1..] == [SPACE] + q;
    TrimmedBehind(SPACE, q);
    QuotedReads(name);
    IndentOfItem(line);
  }

  lemma {:induction false} DashReached(s: bytes)
    requires |s| >= 4 && s[..4] == [SPACE, SPACE, DASH, SPACE]
    ensures CommentAt(s, 0, false, false) == CommentAt(s, 4, false, false)
  {
    assert s[0] == s[..4][0] && s[1] == s[..4][1] && s[2] == s[..4][2] && s[3] == s[..4][3];
    assert CommentAt(s, 2, false, false) == CommentAt(s, 4, false, false);
  }

  lemma {:induction false} CommentAtEnd(s: bytes)
    ensures CommentAt(s, |s|, false, false) == |s|
  {}

  lemma {:induction false} IndentOfItem(s: bytes)
    requires |s| >= 4 && s[..4] == [SPACE, SPACE, DASH, SPACE]
    ensures Indent(s) == 2 && TAB !in s[..Indent(s)]
  {
    assert s[0] == s[..4][0] && s[1] == s[..4][1] && s[2] == s[..4][2];
    assert s[1..][0] == s[1] && s[1..][1..] == s[2..] && s[2..][0] == s[2];
    assert Indent(s[2..]) == 0 && Indent(s[1..]) == 1;
    assert s[..2] == [SPACE, SPACE];
  }

  // ---------------------------------------------------------------- the whole file

  /** Lines without a line feed, written out, are the pieces of the text and an empty last one. */
  lemma {:induction false} JoinedPieces(lines: seq<bytes>)
    requires forall i :: 0 <= i < |lines| ==> LF !in lines[i]
    ensures Pieces(Joined(lines), LF) == lines + [[]]
  {
    if lines == [] {
      assert Pieces([], LF) == [[]];
    } else {
      var init, last := lines[..|lines| - 1], lines[|lines| - 1];
      JoinedPieces(init);
      var text := Joined(init) + last;
      LastPiece(Joined(init), last, init);
      PiecesSnoc(text, [], LF);
      assert text + [LF] + [] == Joined(lines);
      assert init + [last] == lines;
    }
  }

  /** Text without a separator, behind a text whose last piece is empty, becomes that piece. */
  lemma {:induction false} LastPiece(a: bytes, last: bytes, init: seq<bytes>)
    requires Pieces(a, LF) == init + [[]] && LF !in last
    ensures Pieces(a + last, LF) == init + [last]
  {
    if last == [] {
      assert a + last == a;
    } else {
      var head, c := last[..|last| - 1], last[|last| - 1];
      assert c in last;
      hide Pieces;
      LastPiece(a, head, init);
      assert head + [c] == last;
      ConcatAssoc(a, head, [c]);
      PiecesStep(a + head, c, LF);
      assert (init + [head])[..|init|] == init;
    }
  }

  lemma {:induction false} LinesHaveNoFeed(groups: seq<Group>)
    requires QuotableAll(groups)
    ensures forall i :: 0 <= i < |MapLines(groups)| ==> LF !in MapLines(groups)[i]
  {
    hide Quotable;
    if groups != [] {
      var g := groups[|groups| - 1];
      assert QuotableGroup(g);
      LinesHaveNoFeed(groups[..|groups| - 1]);
      QuotedHasNoFeed(g.account);
      ItemsHaveNoFeed(g.principals);
      FlowHasNoFeed(g.principals);
    }
  }

  lemma {:induction false} FlowHasNoFeed(names: seq<bytes>)
    requires forall i :: 0 <= i < |names| ==> Quotable(names[i])
    ensures LF !in FlowText(names)
  {
    hide Quotable;
    if names != [] {
      FlowHasNoFeed(names[..|names| - 1]);
      QuotedHasNoFeed(names[|names| - 1]);
    }
  }

  lemma {:induction false} QuotedHasNoFeed(name: bytes)
    requires Quotable(name)
    ensures LF !in AccountLine(name) && LF !in ItemLine(name)
  {}

  lemma {:induction false} ItemsHaveNoFeed(names: seq<bytes>)
    requires forall i :: 0 <= i < |names| ==> Quotable(names[i])
    ensures forall i :: 0 <= i < |ItemLines(names)| ==> LF !in ItemLines(names)[i]
  {
    hide Quotable;
    if names != [] {
      ItemsHaveNoFeed(names[..|names| - 1]);
      QuotedHasNoFeed(names[|names| - 1]);
    }
  }

  /** What a run of items under an account's open list adds: principals of that account, no account. */
  lemma {:induction false} ItemsAdd(lines: seq<bytes>, names: seq<bytes>, account: bytes)
    requires forall i :: 0 <= i < |names| ==> Quotable(names[i])
    requires ListIsOpen(lines)
    ensures var all := lines + ItemLines(names);
            && LastAccount(all) == LastAccount(lines) && Accounts(all) == Accounts(lines)
            && (WellFormed(all) <==> WellFormed(lines))
            && Listed(all, account) ==
               if LastAccount(lines).name == account then Listed(lines, account) + names else Listed(lines, account)
  {
    hide Classify, WellFormed, Quotable, ItemLine, Listed, LastAccount, Accounts;
    if names == [] {
      assert lines + ItemLines(names) == lines;
    } else {
      var init, name := names[..|names| - 1], names[|names| - 1];
      ItemsAdd(lines, init, account);
      var above := lines + ItemLines(init);
      assert above + [ItemLine(name)] == lines + ItemLines(names);
      ItemLineReads(name);
      WellFormedSnoc(above, ItemLine(name));
      LastSnoc(above, ItemLine(name));
      ListedSnoc(above, ItemLine(name), account);
      assert init + [name] == names;
    }
  }

  lemma {:induction false} ListedSnoc(lines: seq<bytes>, raw: bytes, account: bytes)
    ensures var l, last, ps := Classify(raw), LastAccount(lines), Listed(lines, account);
            Listed(lines + [raw], account) ==
            if l.Item? && last.Account? && last.name == account then ps + [l.principal]
            else if l.Account? && l.name == account && l.value.Flow? then ps + l.value.names
            else ps
  {
    hide Classify, LastAccount;
    Snoc(lines, raw);
  }

  /** The lines of a map: well formed exactly when it is loadable, and then they list what was written. */
  lemma {:induction false} MapLinesMean(groups: seq<Group>, account: bytes)
    requires QuotableAll(groups)
    ensures WellFormed(MapLines(groups)) <==> Loadable(groups)
    ensures Loadable(groups) ==> Accounts(MapLines(groups)) == Names(groups)
                                 && Listed(MapLines(groups), account) == PrincipalsOf(groups, account)
  {
    hide *;
    if groups == [] {
      NoLines(account);
    } else {
      var init, g := groups[..|groups| - 1], groups[|groups| - 1];
      assert groups == init + [g];
      LastGroup(init, g, account);
      MapLinesMean(init, account);
      GroupAdds(MapLines(init), g, account);
      if Loadable(init) {
        SameNames(Names(init), Accounts(MapLines(init)), g.account);
      }
    }
  }

  lemma {:induction false} SameNames(a: seq<bytes>, b: seq<bytes>, name: bytes)
    requires a == b
    ensures name in a <==> name in b
  {}

  lemma {:induction false} LastGroup(init: seq<Group>, g: Group, account: bytes)
    requires QuotableAll(init + [g])
    ensures QuotableAll(init) && QuotableGroup(g)
    ensures MapLines(init + [g]) == MapLines(init) + GroupLines(g)
    ensures Names(init + [g]) == Names(init) + [g.account]
    ensures Loadable(init + [g]) <==>
            Loadable(init) && g.account !in Names(init) && (g.Inline? ==> CommaFree(g.principals))
    ensures PrincipalsOf(init + [g], account) ==
            PrincipalsOf(init, account) + if g.account == account then g.principals else []
  {
    hide GroupLines, CommaFree, QuotableGroup, Distinct;
    var all := init + [g];
    assert all[|init|] == g && all[..|init|] == init && forall i :: 0 <= i < |init| ==> all[i] == init[i];
    assert Names(all) == Names(init) + [g.account];
    DistinctSnoc(Names(init), g.account);
    if Loadable(all) {
      assert forall i :: 0 <= i < |init| && init[i].Inline? ==> all[i].Inline? && CommaFree(all[i].principals);
    }
  }

  /** What a group's lines add to the lines above. */
  lemma {:induction false} GroupAdds(above: seq<bytes>, g: Group, account: bytes)
    requires QuotableGroup(g)
    ensures var all, good := above + GroupLines(g), (g.Inline? ==> CommaFree(g.principals));
            && (WellFormed(all) <==> WellFormed(above) && good && g.account !in Accounts(above))
            && (good ==> Accounts(all) == Accounts(above) + [g.account])
            && (good ==> Listed(all, account) ==
                         Listed(above, account) + if g.account == account then g.principals else [])
  {
    hide Classify, WellFormed, Quotable, ItemLines, AccountLine, InlineLine, Listed, LastAccount, Accounts, CommaFree;
    match g
    case Block(name, names) =>
      var line := AccountLine(name);
      AccountLineReads(name);
      WellFormedSnoc(above, line);
      LastSnoc(above, line);
      ListedSnoc(above, line, account);
      ItemsAdd(above + [line], names, account);
      ConcatAssoc(above, [line], ItemLines(names));
    case Inline(name, names) =>
      var line := InlineLine(name, names);
      InlineLineReads(name, names);
      WellFormedSnoc(above, line);
      LastSnoc(above, line);
      ListedSnoc(above, line, account);
  }

  lemma {:induction false} NoLines(account: bytes)
    ensures MapLines([]) == [] && Accounts([]) == [] && Names([]) == [] && WellFormed([]) && Loadable([])
    ensures Listed([], account) == [] == PrincipalsOf([], account)
  {}

  lemma {:induction false} DistinctSnoc(names: seq<bytes>, name: bytes)
    ensures Distinct(names + [name]) <==> Distinct(names) && name !in names
  {
    var all := names + [name];
    assert forall i :: 0 <= i < |names| ==> all[i] == names[i];
    assert all[|names|] == name;
    if Distinct(all) {
      assert forall i :: 0 <= i < |names| ==> all[i] != all[|names|];
    }
  }

  /** Loading a written map: accepted exactly when it is loadable and below the size cap; the account
      then has its first 64 principals of fewer than 128 bytes, in order. */
  lemma {:induction false} MapRoundTrip(groups: seq<Group>, account: bytes)
    requires QuotableAll(groups)
    ensures LoadOf(MapText(groups), account) ==
            if |MapText(groups)| < 262_144 && Loadable(groups)
            then (Ok, Entry(account in Names(groups), First(Short(PrincipalsOf(groups, account)), 64)))
            else (Malformed, NOTHING)
  {
    hide WellFormed, Accounts, Listed, LastAccount, MapLines, LoadOf, Quotable, First, Short, Loadable;
    var lines, text := MapLines(groups), MapText(groups);
    LinesHaveNoFeed(groups);
    JoinedPieces(lines);
    LoadIff(text, account);
    MapLinesMean(groups, account);
    BlankClassifies();
    WellFormedSnoc(lines, []);
    LastSnoc(lines, []);
    ListedSnoc(lines, [], account);
  }

  lemma {:induction false} BlankClassifies()
    ensures Classify([]) == Blank
  {}
}
