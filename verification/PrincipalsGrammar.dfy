/** The line grammar of the principals map, stated without the loader's searches: which lines are blank,
    list an item or name an account, with quotes, comments and blanks wherever they may stand. */
module PrincipalsGrammar {
  import opened Bytes
  import opened Cutting
  import opened PrincipalsMap

  // --------------------------------------------------------------------- quotes

  datatype Quoting = Outside | InSingle | InDouble

  /** Where a text leaves the reader: each kind of quote hides the other. */
  function Quotes(s: bytes): Quoting {
    if s == [] then Outside
    else
      var q, c := Quotes(s[..|s| - 1]), s[|s| - 1];
      if c == '\'' as int && !q.InDouble? then if q.InSingle? then Outside else InSingle
      else if c == '"' as int && !q.InSingle? then if q.InDouble? then Outside else InDouble
      else q
  }

  /** A hash outside quotes, at the start of the line or behind a blank. */
  predicate StartsComment(s: bytes, k: nat) {
    && k < |s| && s[k] == '#' as int && Quotes(s[..k]).Outside?
    && (k == 0 || s[k - 1] == ' ' as int || s[k - 1] == '\t' as int)
  }

  predicate EndsKey(s: bytes, k: nat) {
    k < |s| && s[k] == ':' as int && Quotes(s[..k]).Outside?
  }

  lemma {:induction false} QuotesStep(s: bytes, i: nat)
    requires i < |s|
    ensures var q, c := Quotes(s[..i]), s[i];
            Quotes(s[..i + 1]) ==
            if c == '\'' as int && !q.InDouble? then (if q.InSingle? then Outside else InSingle)
            else if c == '"' as int && !q.InSingle? then (if q.InDouble? then Outside else InDouble)
            else q
  {
    assert s[..i + 1][..i] == s[..i];
  }

  lemma {:induction false} CommentFrom(s: bytes, i: nat)
    requires i <= |s|
    ensures var q := Quotes(s[..i]);
            var k := CommentAt(s, i, q.InSingle?, q.InDouble?);
            && (forall j :: i <= j < k ==> !StartsComment(s, j))
            && (k < |s| ==> StartsComment(s, k))
    decreases |s| - i
  {
    hide Quotes;
    if i < |s| {
      QuotesStep(s, i);
      CommentFrom(s, i + 1);
    }
  }

  /** The comment of a line starts at the first hash that can start one. */
  lemma {:induction false} CommentIff(s: bytes, k: nat)
    ensures CommentAt(s, 0, false, false) == k <==>
            && k <= |s| && (forall j :: 0 <= j < k ==> !StartsComment(s, j))
            && (k < |s| ==> StartsComment(s, k))
  {
    CommentFrom(s, 0);
    assert s[..0] == [];
  }

  lemma {:induction false} ColonFrom(s: bytes, i: nat)
    requires i <= |s|
    ensures var q := Quotes(s[..i]);
            var k := ColonAt(s, i, q.InSingle?, q.InDouble?);
            && (forall j :: i <= j < k ==> !EndsKey(s, j))
            && (k < |s| ==> EndsKey(s, k))
    decreases |s| - i
  {
    hide Quotes;
    if i < |s| {
      QuotesStep(s, i);
      ColonFrom(s, i + 1);
    }
  }

  /** A key ends at the first colon outside quotes. */
  lemma {:induction false} ColonIff(s: bytes, k: nat)
    ensures ColonAt(s, 0, false, false) == k <==>
            && k <= |s| && (forall j :: 0 <= j < k ==> !EndsKey(s, j))
            && (k < |s| ==> EndsKey(s, k))
  {
    ColonFrom(s, 0);
    assert s[..0] == [];
  }

  // --------------------------------------------------------------------- blanks

  /** A space, a tab or a carriage return. */
  predicate White(c: byte) {
    c == ' ' as int || c == '\t' as int || c == '\r' as int
  }

  predicate AllBlank(s: bytes) {
    forall c :: c in s ==> White(c)
  }

  /** No blank at either end. */
  predicate Bare(s: bytes) {
    s == [] || (!White(s[0]) && !White(s[|s| - 1]))
  }

  /** A text with nothing but blanks around it. */
  ghost predicate Padded(s: bytes, a: bytes, t: bytes, b: bytes) {
    s == a + (t + b) && AllBlank(a) && AllBlank(b) && Bare(t)
  }

  lemma {:induction false} TrimLeftParts(s: bytes) returns (a: bytes)
    ensures s == a + TrimLeft(s) && AllBlank(a)
    ensures TrimLeft(s) != [] ==> !IsBlank(TrimLeft(s)[0])
  {
    if s != [] && IsBlank(s[0]) {
      a := TrimLeftParts(s[1..]);
      a := [s[0]] + a;
    } else {
      a := [];
    }
  }

  lemma {:induction false} TrimRightParts(s: bytes) returns (b: bytes)
    ensures s == TrimRight(s) + b && AllBlank(b)
    ensures TrimRight(s) != [] ==> !IsBlank(TrimRight(s)[|TrimRight(s)| - 1])
  {
    if s != [] && IsBlank(s[|s| - 1]) {
      b := TrimRightParts(s[..|s| - 1]);
      assert s == s[..|s| - 1] + [s[|s| - 1]];
      b := b + [s[|s| - 1]];
    } else {
      b := [];
    }
  }

  lemma {:induction false} TrimmedParts(s: bytes) returns (a: bytes, b: bytes)
    ensures Padded(s, a, Trimmed(s), b)
  {
    a := TrimLeftParts(s);
    b := TrimRightParts(TrimLeft(s));
    var l, t := TrimLeft(s), Trimmed(s);
    assert t != [] ==> t[0] == l[0];
  }

  lemma {:induction false} TrimLeftOver(a: bytes, t: bytes)
    requires AllBlank(a) && (t == [] || !IsBlank(t[0]))
    ensures TrimLeft(a + t) == t
  {
    if a == [] {
      assert a + t == t;
    } else {
      assert a[0] in a;
      TrimLeftOver(a[1..], t);
      assert (a + t)[1..] == a[1..] + t;
    }
  }

  lemma {:induction false} TrimRightOver(t: bytes, b: bytes)
    requires AllBlank(b) && (t == [] || !IsBlank(t[|t| - 1]))
    ensures TrimRight(t + b) == t
  {
    if b == [] {
      assert t + b == t;
    } else {
      assert b[|b| - 1] in b;
      TrimRightOver(t, b[..|b| - 1]);
      assert (t + b)[..|t + b| - 1] == t + b[..|b| - 1];
    }
  }

  lemma {:induction false} AllBlankLeft(s: bytes)
    requires AllBlank(s)
    ensures TrimLeft(s) == []
  {
    TrimLeftOver(s, []);
    assert s + [] == s;
  }

  lemma {:induction false} PaddedTrims(s: bytes, a: bytes, t: bytes, b: bytes)
    requires Padded(s, a, t, b)
    ensures Trimmed(s) == t
  {
    if t == [] {
      assert forall c :: c in s ==> IsBlank(c);
      AllBlankLeft(s);
    } else {
      TrimLeftOver(a, t + b);
      TrimRightOver(t, b);
    }
  }

  /** Trimming drops exactly the blanks around a text. */
  lemma {:induction false} TrimIff(s: bytes, t: bytes)
    ensures Trimmed(s) == t <==> exists a, b :: Padded(s, a, t, b)
  {
    hide Padded, Trimmed;
    var a, b := TrimmedParts(s);
    forall a, b | Padded(s, a, t, b) ensures Trimmed(s) == t {
      PaddedTrims(s, a, t, b);
    }
  }

  // -------------------------------------------------------------------- scalars

  /** A value as it is written for a name: bare, or between quotes of one kind that it does not hold. */
  predicate Spells(s: bytes, p: bytes) {
    p != [] &&
    (|| (s == p && s[0] != '"' as int && s[0] != '\'' as int)
     || ('\\' as int !in p && '"' as int !in p && s == ['"' as int] + p + ['"' as int])
     || ('\\' as int !in p && '\'' as int !in p && s == ['\'' as int] + p + ['\'' as int]))
  }

  lemma {:induction false} ScalarIff(s: bytes, p: bytes)
    ensures Scalar(s) == Some(p) <==> Spells(s, p)
  {
    if |s| >= 2 {
      var inner := s[1..|s| - 1];
      assert s == [s[0]] + inner + [s[|s| - 1]];
    }
    if Spells(s, p) && s != p {
      assert s[1..|s| - 1] == p;
    }
  }

  /** A list field: a spelled name with blanks around it. */
  ghost predicate FieldSpells(f: bytes, p: bytes) {
    exists a, t, b :: Padded(f, a, t, b) && Spells(t, p)
  }

  lemma {:induction false} FieldIff(f: bytes, p: bytes)
    ensures Scalar(Trimmed(f)) == Some(p) <==> FieldSpells(f, p)
  {
    hide Scalar, Trimmed, Padded, Spells;
    ScalarIff(Trimmed(f), p);
    TrimIff(f, Trimmed(f));
    forall a, t, b | Padded(f, a, t, b) ensures t == Trimmed(f) {
      PaddedTrims(f, a, t, b);
    }
  }

  ghost predicate FieldsSpell(fields: seq<bytes>, names: seq<bytes>) {
    |fields| == |names| && forall i :: 0 <= i < |names| ==> FieldSpells(fields[i], names[i])
  }

  lemma {:induction false} FieldsIff(fields: seq<bytes>, names: seq<bytes>)
    ensures Scalars(fields) == Some(names) <==> FieldsSpell(fields, names)
  {
    hide Scalar, Trimmed, FieldSpells;
    if fields == [] {
      assert names == [] ==> FieldsSpell(fields, names);
    } else if names != [] {
      var f, p := fields[|fields| - 1], names[|names| - 1];
      var before, names' := fields[..|fields| - 1], names[..|names| - 1];
      FieldsIff(before, names');
      FieldIff(f, p);
      assert names == names' + [p];
      LastFieldSpells(before, f, names', p);
      assert fields == before + [f];
    }
  }

  lemma {:induction false} LastFieldSpells(fields: seq<bytes>, f: bytes, names: seq<bytes>, p: bytes)
    ensures FieldsSpell(fields + [f], names + [p]) <==> FieldsSpell(fields, names) && FieldSpells(f, p)
  {
    hide FieldSpells;
    var all, ps := fields + [f], names + [p];
    assert all[|fields|] == f && ps[|names|] == p;
    if FieldsSpell(all, ps) {
      assert forall i :: 0 <= i < |names| ==> FieldSpells(all[i], ps[i]) && all[i] == fields[i] && ps[i] == names[i];
      assert FieldSpells(all[|names|], ps[|names|]);
    }
  }

  /** An inline list: brackets around nothing but blanks, or around spelled names between commas. */
  ghost predicate ListSpells(value: bytes, a: bytes, list: bytes, b: bytes, names: seq<bytes>) {
    && value == ['[' as int] + (a + (list + b)) + [']' as int]
    && AllBlank(a) && AllBlank(b) && Bare(list)
    && if list == [] then names == [] else FieldsSpell(Pieces(list, ',' as int), names)
  }

  lemma {:induction false} FlowIff(value: bytes, names: seq<bytes>)
    requires value != [] && value[0] == '[' as int
    ensures FlowList(value) == Some(names) <==> exists a, list, b :: ListSpells(value, a, list, b, names)
  {
    hide Pieces, Trimmed, Scalars, FieldsSpell, AllBlank, Bare;
    if |value| >= 2 && value[|value| - 1] == ']' as int {
      var inner := value[1..|value| - 1];
      var list := Trimmed(inner);
      assert value == ['[' as int] + inner + [']' as int];
      var a, b := TrimmedParts(inner);
      FieldsIff(Pieces(list, ',' as int), names);
      if FlowList(value) == Some(names) {
        assert ListSpells(value, a, list, b, names);
      }
    }
    forall a, list, b | ListSpells(value, a, list, b, names) ensures FlowList(value) == Some(names) {
      assert value[1..|value| - 1] == a + (list + b);
      PaddedTrims(a + (list + b), a, list, b);
      FieldsIff(Pieces(list, ',' as int), names);
    }
  }

  /** What may stand behind an account's colon: nothing, for a list on the lines below; null or a tilde,
      for none; or an inline list. */
  lemma {:induction false} ValueIff(word: bytes, value: Value)
    ensures ValueOf(word) == Some(value) <==>
            || (word == [] && value == OpenList)
            || ((word == Ascii("null") || word == Ascii("~")) && value == Empty)
            || (value.Flow? && exists a, list, b :: ListSpells(word, a, list, b, value.names))
  {
    NoList();
    hide FlowList, ListSpells, Ascii;
    if word != [] && word[0] == '[' as int && value.Flow? {
      FlowIff(word, value.names);
    }
    if value.Flow? {
      forall a, list, b | ListSpells(word, a, list, b, value.names) ensures word != [] && word[0] == '[' as int {
        ListOpens(word, a, list, b, value.names);
      }
    }
  }

  lemma {:induction false} NoList()
    ensures Ascii("null") != [] && Ascii("null")[0] != '[' as int && Ascii("~") != [] && Ascii("~")[0] != '[' as int
  {}

  lemma {:induction false} ListOpens(value: bytes, a: bytes, list: bytes, b: bytes, names: seq<bytes>)
    requires ListSpells(value, a, list, b, names)
    ensures value != [] && value[0] == '[' as int
  {}

  // ---------------------------------------------------------------------- lines

  /** A line and its comment. */
  ghost predicate Body(raw: bytes, text: bytes, tail: bytes) {
    && raw == text + tail
    && (forall j :: 0 <= j < |text| ==> !StartsComment(raw, j))
    && (tail == [] || StartsComment(raw, |text|))
  }

  lemma {:induction false} BodyIff(raw: bytes, text: bytes, tail: bytes)
    ensures Body(raw, text, tail) ==> Uncommented(raw) == text
    ensures |Uncommented(raw)| <= |raw| && Body(raw, Uncommented(raw), raw[|Uncommented(raw)|..])
  {
    hide StartsComment;
    var k := CommentAt(raw, 0, false, false);
    CommentIff(raw, k);
    if Body(raw, text, tail) {
      CommentIff(raw, |text|);
      assert raw[..|text|] == text;
    }
    assert raw == raw[..k] + raw[k..];
  }

  /** The indentation holds a tab exactly when the first character other than a space is one. */
  predicate TabFirst(text: bytes) {
    exists n :: 0 <= n < |text| && text[n] == '\t' as int && forall j :: 0 <= j < n ==> text[j] == ' ' as int
  }

  predicate Indented(text: bytes) {
    text != [] && (text[0] == ' ' as int || text[0] == '\t' as int)
  }

  lemma {:induction false} IndentIff(text: bytes)
    ensures '\t' as int in text[..Indent(text)] <==> TabFirst(text)
    ensures Indent(text) > 0 <==> Indented(text)
  {
    if Indented(text) {
      var rest := text[1..];
      IndentIff(rest);
      assert text[..Indent(text)] == [text[0]] + rest[..Indent(rest)];
      if text[0] == ' ' as int {
        TabBehindSpace(text);
      } else {
        assert text[0] == '\t' as int && '\t' as int in text[..Indent(text)];
      }
    } else {
      assert text[..0] == [];
    }
  }

  lemma {:induction false} TabBehindSpace(text: bytes)
    requires text != [] && text[0] == ' ' as int
    ensures TabFirst(text) <==> TabFirst(text[1..])
  {
    var rest := text[1..];
    assert forall j :: 0 <= j < |rest| ==> rest[j] == text[j + 1];
    if n :| 0 <= n < |text| && text[n] == '\t' as int && forall j :: 0 <= j < n ==> text[j] == ' ' as int {
      assert rest[n - 1] == '\t' as int && forall j :: 0 <= j < n - 1 ==> rest[j] == ' ' as int;
    }
    if n :| 0 <= n < |rest| && rest[n] == '\t' as int && forall j :: 0 <= j < n ==> rest[j] == ' ' as int {
      assert text[n + 1] == '\t' as int && forall j :: 0 <= j < n + 1 ==> text[j] == ' ' as int;
    }
  }

  lemma {:induction false} NothingLeft(text: bytes)
    ensures Trimmed(text) == [] <==> AllBlank(text)
  {
    TrimIff(text, []);
    if AllBlank(text) {
      assert Padded(text, text, [], []);
    }
    if a, b :| Padded(text, a, [], b) {
      assert forall c :: c in text ==> c in a || c in b;
    }
  }

  /** The blank lines: blanks without a tab in the indentation, and a comment or none. */
  lemma {:induction false} BlankIff(raw: bytes)
    ensures Classify(raw) == Blank <==>
            exists text, tail :: Body(raw, text, tail) && AllBlank(text) && !TabFirst(text)
  {
    hide Body, Uncommented, Trimmed, AllBlank, TabFirst, Classify;
    var text := Uncommented(raw);
    BodyIff(raw, text, []);
    BlankByTrim(raw);
    NothingLeft(text);
    if Classify(raw) == Blank {
      assert Body(raw, text, raw[|text|..]) && AllBlank(text) && !TabFirst(text);
    }
    if text', tail :| Body(raw, text', tail) && AllBlank(text') && !TabFirst(text') {
      BodyIff(raw, text', tail);
      assert Classify(raw) == Blank;
    }
  }

  lemma {:induction false} BlankByTrim(raw: bytes)
    ensures var text := Uncommented(raw);
            Classify(raw) == Blank <==> Trimmed(text) == [] && !TabFirst(text)
  {
    hide Uncommented, Trimmed, TabFirst, ItemOf, AccountOf;
    var text := Uncommented(raw);
    IndentIff(text);
    var content := Trimmed(text);
    if content != [] {
      NeverBlank(content);
      NeverBlank(content[1..]);
    }
  }

  lemma {:induction false} NeverBlank(content: bytes)
    ensures ItemOf(content) != Blank && AccountOf(content) != Blank
  {
    hide KeySplit, Scalar, ValueOf, Trimmed;
  }

  /** "- name" with any blanks around, indented by spaces at most. */
  ghost predicate ItemShape(text: bytes, lead: bytes, gap: bytes, word: bytes, trail: bytes, p: bytes) {
    && text == lead + (['-' as int] + (gap + (word + trail)))
    && AllBlank(lead) && AllBlank(gap) && AllBlank(trail) && !TabFirst(text)
    && gap != [] && gap[0] == ' ' as int && Bare(word) && Spells(word, p)
  }

  lemma {:induction false} ItemByTrim(raw: bytes, p: bytes)
    ensures var text := Uncommented(raw);
            var content := Trimmed(text);
            Classify(raw) == Item(p) <==>
            && !TabFirst(text) && content != [] && content[0] == '-' as int
            && |content| >= 2 && content[1] == ' ' as int && Spells(Trimmed(content[1..]), p)
  {
    hide Uncommented, Trimmed, TabFirst, AccountOf, Scalar, Spells;
    var text := Uncommented(raw);
    IndentIff(text);
    var content := Trimmed(text);
    NoItem(content);
    TrimmedNothing();
    ScalarIff([], p);
    if content != [] {
      ScalarIff(Trimmed(content[1..]), p);
    }
    NothingSpells(p);
  }

  lemma {:induction false} NoItem(content: bytes)
    ensures !AccountOf(content).Item?
  {
    hide KeySplit, Scalar, ValueOf;
  }

  lemma {:induction false} TrimmedNothing()
    ensures Trimmed([]) == []
  {}

  lemma {:induction false} NothingSpells(p: bytes)
    ensures !Spells([], p)
  {}

  lemma {:induction false} SpelledIsBare(word: bytes, p: bytes)
    requires Spells(word, p)
    ensures word != []
  {}

  lemma {:induction false} BlankParts(a: bytes, b: bytes)
    ensures AllBlank(a + b) <==> AllBlank(a) && AllBlank(b)
  {
    assert forall c :: c in a + b <==> c in a || c in b;
  }

  /** What trimming a line and then its item leaves is the item's word, and the other way round. */
  lemma {:induction false} ItemTrimmed(text: bytes, lead: bytes, gap: bytes, word: bytes, trail: bytes, p: bytes)
    requires ItemShape(text, lead, gap, word, trail, p)
    ensures var content := Trimmed(text);
            |content| >= 2 && content[0] == '-' as int && content[1] == ' ' as int && Trimmed(content[1..]) == word
  {
    SpelledIsBare(word, p);
    hide Trimmed, AllBlank, TabFirst, Spells;
    var content := ['-' as int] + (gap + word);
    assert text == lead + (content + trail);
    assert content[|content| - 1] == word[|word| - 1];
    PaddedTrims(text, lead, content, trail);
    assert content[1..] == gap + (word + []);
    BlankParts([], []);
    NoBlanks();
    PaddedTrims(content[1..], gap, word, []);
  }

  lemma {:induction false} NoBlanks()
    ensures AllBlank([])
  {}

  lemma {:induction false} ItemCut(text: bytes, p: bytes)
    requires !TabFirst(text)
    requires var content := Trimmed(text);
             && |content| >= 2 && content[0] == '-' as int && content[1] == ' ' as int
             && Spells(Trimmed(content[1..]), p)
    ensures exists lead, gap, word, trail :: ItemShape(text, lead, gap, word, trail, p)
  {
    var content := Trimmed(text);
    var item := content[1..];
    var word := Trimmed(item);
    SpelledIsBare(word, p);
    var a, b := TrimmedParts(text);
    var g, r := TrimmedParts(item);
    hide Trimmed, AllBlank, TabFirst, Spells;
    BlankParts(r, b);
    assert content == ['-' as int] + item;
    ItemJoined(a, g, word, r, b);
    FirstOfItem(item, g, word, r);
    assert ItemShape(text, a, g, word, r + b, p);
  }

  lemma {:induction false} ItemJoined(a: bytes, g: bytes, word: bytes, r: bytes, b: bytes)
    ensures a + ((['-' as int] + (g + (word + r))) + b) == a + (['-' as int] + (g + (word + (r + b))))
  {}

  lemma {:induction false} FirstOfItem(item: bytes, g: bytes, word: bytes, r: bytes)
    requires item == g + (word + r) && item != [] && item[0] == ' ' as int && word != [] && Bare(word)
    ensures g != [] && g[0] == ' ' as int
  {
    assert [] + (word + r) == word + r;
  }

  /** The lines that list a principal. */
  lemma {:induction false} ItemIff(raw: bytes, p: bytes)
    ensures Classify(raw) == Item(p) <==>
            exists text, tail, lead, gap, word, trail ::
              Body(raw, text, tail) && ItemShape(text, lead, gap, word, trail, p)
  {
    hide Body, Uncommented, Trimmed, TabFirst, Spells, Classify, AllBlank;
    var text := Uncommented(raw);
    ItemByTrim(raw, p);
    BodyIff(raw, text, []);
    if Classify(raw) == Item(p) {
      ItemCut(text, p);
      var lead, gap, word, trail :| ItemShape(text, lead, gap, word, trail, p);
      assert Body(raw, text, raw[|text|..]) && ItemShape(text, lead, gap, word, trail, p);
    }
    if text', tail, lead, gap, word, trail :| Body(raw, text', tail) && ItemShape(text', lead, gap, word, trail, p) {
      BodyIff(raw, text', tail);
      ItemTrimmed(text', lead, gap, word, trail, p);
    }
  }

  /** A key read to its end holds no colon outside quotes and leaves none open. */
  predicate KeyText(key: bytes) {
    Quotes(key).Outside? && forall j :: 0 <= j < |key| ==> !EndsKey(key, j)
  }

  /** "name:" or "name: value" with any blanks around, not indented. */
  ghost predicate AccountShape(text: bytes, lead: bytes, key: bytes, gap: bytes, back: bytes, word: bytes,
                               trail: bytes, name: bytes, value: Value) {
    && text == lead + (key + (gap + ([':' as int] + (back + (word + trail)))))
    && AllBlank(lead) && AllBlank(gap) && AllBlank(back) && AllBlank(trail) && !Indented(text)
    && Bare(key) && (key == [] || key[0] != '-' as int) && KeyText(key) && Spells(key, name)
    && Bare(word) && ValueOf(word) == Some(value)
  }

  lemma {:induction false} QuotesBehind(s: bytes, blanks: bytes)
    requires AllBlank(blanks)
    ensures Quotes(s + blanks) == Quotes(s)
  {
    if blanks == [] {
      assert s + blanks == s;
    } else {
      var init, c := blanks[..|blanks| - 1], blanks[|blanks| - 1];
      assert c in blanks && forall x :: x in init ==> x in blanks;
      QuotesBehind(s, init);
      assert (s + blanks)[..|s + blanks| - 1] == s + init;
    }
  }

  /** Blanks and a key, and blanks behind it, up to a colon. */
  lemma {:induction false} KeyInFront(key: bytes, gap: bytes, rest: bytes)
    requires AllBlank(gap)
    ensures KeyText(key) <==> ColonAt(key + (gap + ([':' as int] + rest)), 0, false, false) == |key| + |gap|
  {
    hide Quotes;
    var s, k := key + (gap + ([':' as int] + rest)), |key| + |gap|;
    ColonIff(s, k);
    assert s[..k] == key + gap && s[k] == ':' as int;
    QuotesBehind(key, gap);
    forall j | 0 <= j < |key| ensures EndsKey(s, j) <==> EndsKey(key, j) {
      assert s[..j] == key[..j] && s[j] == key[j];
    }
    forall j | |key| <= j < k ensures !EndsKey(s, j) {
      assert s[j] == gap[j - |key|] && gap[j - |key|] in gap;
    }
    if ColonAt(s, 0, false, false) == k {
      assert EndsKey(s, k);
    }
  }

  lemma {:induction false} AccountByTrim(raw: bytes, name: bytes, value: Value)
    ensures var text := Uncommented(raw);
            var content := Trimmed(text);
            var k := ColonAt(content, 0, false, false);
            Classify(raw) == Account(name, value) <==>
            && !Indented(text) && content != [] && content[0] != '-' as int && k < |content|
            && Spells(Trimmed(content[..k]), name) && ValueOf(Trimmed(content[k + 1..])) == Some(value)
  {
    hide Uncommented, Trimmed, TabFirst, ColonAt, Scalar, Spells, ValueOf;
    var text := Uncommented(raw);
    IndentIff(text);
    NoTabUnlessIndented(text);
    var content := Trimmed(text);
    if content != [] {
      NeverAccount(content[1..]);
      var k := ColonAt(content, 0, false, false);
      if k < |content| {
        ScalarIff(Trimmed(content[..k]), name);
      }
    }
  }

  lemma {:induction false} NoTabUnlessIndented(text: bytes)
    ensures TabFirst(text) ==> Indented(text)
  {}

  lemma {:induction false} NeverAccount(item: bytes)
    ensures !ItemOf(item).Account?
  {
    hide Scalar, Trimmed;
  }

  /** A key, its blanks, a colon and what follows it, taken apart again. */
  lemma {:induction false} ContentParts(key: bytes, gap: bytes, end: bytes)
    requires key != []
    ensures var content, k := key + (gap + ([':' as int] + end)), |key| + |gap|;
            && |content| == k + 1 + |end| && content[0] == key[0]
            && content[|content| - 1] == (if end == [] then ':' as int else end[|end| - 1])
            && content[..k] == [] + (key + gap) && content[k + 1..] == end
  {}

  lemma {:induction false} LineParts(lead: bytes, key: bytes, gap: bytes, back: bytes, word: bytes, trail: bytes)
    ensures var text := lead + (key + (gap + ([':' as int] + (back + (word + trail)))));
            && text == lead + ((key + (gap + ([':' as int] + (back + word)))) + trail)
            && (word == [] ==> text == lead + ((key + (gap + ([':' as int] + []))) + (back + trail)))
  {}

  lemma {:induction false} AccountTrimmed(text: bytes, lead: bytes, key: bytes, gap: bytes, back: bytes, word: bytes,
                                          trail: bytes, name: bytes, value: Value)
    requires AccountShape(text, lead, key, gap, back, word, trail, name, value)
    ensures var content := Trimmed(text);
            var k := ColonAt(content, 0, false, false);
            && content != [] && content[0] != '-' as int && k < |content|
            && Trimmed(content[..k]) == key && Trimmed(content[k + 1..]) == word
  {
    SpelledIsBare(key, name);
    LineParts(lead, key, gap, back, word, trail);
    hide Trimmed, AllBlank, Spells, ValueOf, KeyText, ColonAt, Indented;
    NoBlanks();
    if word == [] {
      BlankParts(back, trail);
      ContentTrimmed(text, lead, key, gap, [], [], [], back + trail);
    } else {
      ContentTrimmed(text, lead, key, gap, back + word, back, word, trail);
      assert back + (word + []) == back + word;
    }
  }

  lemma {:induction false} ContentTrimmed(text: bytes, lead: bytes, key: bytes, gap: bytes, end: bytes, back: bytes,
                                          word: bytes, trail: bytes)
    requires text == lead + ((key + (gap + ([':' as int] + end))) + trail) && end == back + word
    requires AllBlank(lead) && AllBlank(gap) && AllBlank(back) && AllBlank(trail)
    requires key != [] && Bare(key) && KeyText(key) && Bare(word) && (end == [] || word != [])
    ensures var content := Trimmed(text);
            var k := ColonAt(content, 0, false, false);
            && content != [] && content[0] == key[0] && k < |content|
            && Trimmed(content[..k]) == key && Trimmed(content[k + 1..]) == word
  {
    hide Trimmed, AllBlank, KeyText, ColonAt;
    var content, k := key + (gap + ([':' as int] + end)), |key| + |gap|;
    ContentParts(key, gap, end);
    PaddedTrims(text, lead, content, trail);
    KeyInFront(key, gap, end);
    NoBlanks();
    PaddedTrims(content[..k], [], key, gap);
    assert end == back + (word + []);
    PaddedTrims(end, back, word, []);
  }

  lemma {:induction false} AccountCut(text: bytes, name: bytes, value: Value)
    requires !Indented(text)
    requires var content := Trimmed(text);
             var k := ColonAt(content, 0, false, false);
             && content != [] && content[0] != '-' as int && k < |content|
             && Spells(Trimmed(content[..k]), name) && ValueOf(Trimmed(content[k + 1..])) == Some(value)
    ensures exists lead, key, gap, back, word, trail ::
              AccountShape(text, lead, key, gap, back, word, trail, name, value)
  {
    hide Trimmed, AllBlank, Spells, ValueOf, ColonAt, Indented, KeyText;
    var content := Trimmed(text);
    var k := ColonAt(content, 0, false, false);
    var key, word := Trimmed(content[..k]), Trimmed(content[k + 1..]);
    SpelledIsBare(key, name);
    var a, b := TrimmedParts(text);
    var a1, gap := TrimmedParts(content[..k]);
    var back, r := TrimmedParts(content[k + 1..]);
    NoBlankFirst(a1, content[..k], content);
    BlankParts(r, b);
    CutParts(content, k, key, gap);
    assert text == a + (content + b);
    Reassembled(a, key, gap, back, word, r, b, content);
    assert AccountShape(text, a, key, gap, back, word, r + b, name, value);
  }

  lemma {:induction false} NoBlankFirst(a: bytes, front: bytes, content: bytes)
    requires a <= front <= content && AllBlank(a) && Bare(content)
    ensures a == []
  {
    assert forall c :: c in a[..] ==> IsBlank(c);
  }

  lemma {:induction false} CutParts(content: bytes, k: nat, key: bytes, gap: bytes)
    requires k < |content| && ColonAt(content, 0, false, false) == k
    requires content[..k] == [] + (key + gap) && AllBlank(gap) && key != []
    ensures KeyText(key) && key[0] == content[0]
    ensures content == key + (gap + ([':' as int] + content[k + 1..]))
  {
    hide AllBlank, KeyText, ColonAt;
    ColonIff(content, k);
    assert content == content[..k] + ([':' as int] + content[k + 1..]);
    assert content == key + (gap + ([':' as int] + content[k + 1..]));
    KeyInFront(key, gap, content[k + 1..]);
    assert key[0] == content[..k][0];
  }

  lemma {:induction false} Reassembled(a: bytes, key: bytes, gap: bytes, back: bytes, word: bytes, r: bytes, b: bytes,
                                       content: bytes)
    requires content == key + (gap + ([':' as int] + (back + (word + r))))
    ensures a + (content + b) == a + (key + (gap + ([':' as int] + (back + (word + (r + b))))))
  {}

  /** The lines that name an account. */
  lemma {:induction false} AccountIff(raw: bytes, name: bytes, value: Value)
    ensures Classify(raw) == Account(name, value) <==>
            exists text, tail, lead, key, gap, back, word, trail ::
              Body(raw, text, tail) && AccountShape(text, lead, key, gap, back, word, trail, name, value)
  {
    hide Body, Uncommented, Trimmed, Spells, Classify, AllBlank, ValueOf, ColonAt, KeyText;
    var text := Uncommented(raw);
    AccountByTrim(raw, name, value);
    BodyIff(raw, text, []);
    if Classify(raw) == Account(name, value) {
      AccountCut(text, name, value);
      var lead, key, gap, back, word, trail :|
        AccountShape(text, lead, key, gap, back, word, trail, name, value);
      assert Body(raw, text, raw[|text|..]);
    }
    if text', tail, lead, key, gap, back, word, trail :|
      Body(raw, text', tail) && AccountShape(text', lead, key, gap, back, word, trail, name, value) {
      BodyIff(raw, text', tail);
      AccountTrimmed(text', lead, key, gap, back, word, trail, name, value);
    }
  }
}
