/** Cutting text at a separator, as a whole and piece by piece from the front. */
module Cutting {
  import opened Bytes

  /** The pieces between separators; one more than there are separators. */
  function Pieces(s: bytes, sep: byte): (ps: seq<bytes>)
    ensures |ps| >= 1
  {
    if s == [] then [[]]
    else
      var ps, c := Pieces(s[..|s| - 1], sep), s[|s| - 1];
      if c == sep then ps + [[]] else ps[..|ps| - 1] + [ps[|ps| - 1] + [c]]
  }

  /** A piece without the separator, added behind one. */
  lemma {:induction false} PiecesSnoc(a: bytes, piece: bytes, sep: byte)
    requires sep !in piece
    ensures Pieces(a + [sep] + piece, sep) == Pieces(a, sep) + [piece]
  {
    var s := a + [sep] + piece;
    if piece == [] {
      assert s == a + [sep] && s[..|s| - 1] == a;
    } else {
      var init, c := piece[..|piece| - 1], piece[|piece| - 1];
      assert c in piece;
      PiecesSnoc(a, init, sep);
      assert s[..|s| - 1] == a + [sep] + init;
      var ps := Pieces(a, sep) + [init];
      assert ps[..|ps| - 1] == Pieces(a, sep) && init + [c] == piece;
    }
  }

  lemma {:induction false} PiecesOne(piece: bytes, sep: byte)
    requires sep !in piece
    ensures Pieces(piece, sep) == [piece]
  {
    if piece != [] {
      var init, c := piece[..|piece| - 1], piece[|piece| - 1];
      assert c in piece;
      PiecesOne(init, sep);
      assert init + [c] == piece;
    }
  }

  /** The pieces that end before position pos, when pos starts a piece. */
  function Before(s: bytes, sep: byte, pos: nat): seq<bytes>
    requires pos <= |s| + 1
  {
    if pos == 0 then [] else Pieces(s[..pos - 1], sep)
  }

  predicate AtStart(s: bytes, sep: byte, pos: nat) {
    pos <= |s| + 1 && (pos == 0 || pos == |s| + 1 || s[pos - 1] == sep)
  }

  lemma {:induction false} BeforeNext(s: bytes, sep: byte, pos: nat, len: nat)
    requires AtStart(s, sep, pos) && pos + len <= |s| && sep !in s[pos..pos + len]
    ensures Before(s, sep, pos + len + 1) == Before(s, sep, pos) + [s[pos..pos + len]]
  {
    var piece := s[pos..pos + len];
    if pos == 0 {
      PiecesOne(piece, sep);
      assert s[..len] == piece;
    } else {
      PiecesSnoc(s[..pos - 1], piece, sep);
      assert s[..pos + len] == s[..pos - 1] + [sep] + piece;
    }
  }

  function First<T>(s: seq<T>, n: nat): seq<T> {
    if |s| <= n then s else s[..n]
  }

  lemma {:induction false} PiecesStep(s: bytes, c: byte, sep: byte)
    ensures var ps := Pieces(s, sep);
            Pieces(s + [c], sep) ==
            if c == sep then ps + [[]] else ps[..|ps| - 1] + [ps[|ps| - 1] + [c]]
  {
    assert (s + [c])[..|s|] == s;
  }

  /** Cutting at a separator: the pieces of both sides. */
  lemma {:induction false} PiecesJoin(a: bytes, b: bytes, sep: byte)
    ensures Pieces(a + [sep] + b, sep) == Pieces(a, sep) + Pieces(b, sep)
  {
    if b == [] {
      PiecesSnoc(a, [], sep);
    } else {
      hide Pieces;
      var init, c := b[..|b| - 1], b[|b| - 1];
      PiecesJoin(a, init, sep);
      assert b == init + [c];
      ConcatAssoc(a + [sep], init, [c]);
      PiecesStep(init, c, sep);
      PiecesStep(a + [sep] + init, c, sep);
      LastGrows(Pieces(a, sep), Pieces(init, sep), c);
    }
  }

  lemma {:induction false} LastGrows(left: seq<bytes>, right: seq<bytes>, c: byte)
    requires right != []
    ensures var both := left + right;
            both[..|both| - 1] + [both[|both| - 1] + [c]] == left + (right[..|right| - 1] + [right[|right| - 1] + [c]])
    ensures left + right + [[]] == left + (right + [[]])
  {
    var both := left + right;
    assert both[|both| - 1] == right[|right| - 1];
  }

  lemma {:induction false} FirstPiece(s: bytes, sep: byte)
    requires sep in s
    ensures Pieces(s, sep)[0] == s[..NextSep(s, sep)] && NextSep(s, sep) < |s|
  {
    var k := NextSep(s, sep);
    assert s[..|s|] == s;
    assert s == s[..k] + [sep] + s[k + 1..];
    PiecesJoin(s[..k], s[k + 1..], sep);
    PiecesOne(s[..k], sep);
  }

  lemma {:induction false} BeforePrefix(s: bytes, sep: byte, pos: nat)
    requires AtStart(s, sep, pos)
    ensures Before(s, sep, pos) <= Pieces(s, sep)
    decreases |s| + 1 - pos
  {
    BeforeEnd(s, sep);
    hide Before, Pieces;
    if pos <= |s| {
      var len := NextSep(s[pos..], sep);
      assert s[pos..pos + len] == s[pos..][..len];
      BeforeNext(s, sep, pos, len);
      BeforePrefix(s, sep, pos + len + 1);
    }
  }

  ghost function NextSep(s: bytes, sep: byte): (n: nat)
    ensures n <= |s| && sep !in s[..n] && (n == |s| || s[n] == sep)
  {
    if s == [] || s[0] == sep then 0 else 1 + NextSep(s[1..], sep)
  }

  lemma {:induction false} BeforeEnd(s: bytes, sep: byte)
    ensures Before(s, sep, |s| + 1) == Pieces(s, sep)
  {
    assert s[..|s|] == s;
  }

  lemma {:induction false} BeforeStart(s: bytes, sep: byte)
    ensures Before(s, sep, 0) == []
  {}

  method LineLength(s: bytes, pos: nat, sep: byte) returns (len: nat)
    requires pos <= |s|
    ensures pos + len <= |s| && sep !in s[pos..pos + len]
    ensures pos + len == |s| || s[pos + len] == sep
  {
    len := 0;
    while pos + len < |s| && s[pos + len] != sep
      invariant pos + len <= |s| && sep !in s[pos..pos + len]
    {
      assert s[pos..pos + len + 1] == s[pos..pos + len] + [s[pos + len]];
      len := len + 1;
    }
  }
}
