/** The whitelist between a server's text and the terminal. */
module Conv {
  import opened Bytes

  datatype TextClass = Code | Url | Qr

  const UPPER: bytes := [0xe2, 0x96, 0x80]
  const LOWER: bytes := [0xe2, 0x96, 0x84]
  const BOTH: bytes := [0xe2, 0x96, 0x88]
  const MARKS := Ascii("-._~:/?#[]@!$&'()*+,;=%")

  // ---------------------------------------------------------------- the alphabet

  /** Crockford base 32 and the dash. */
  predicate CodeChar(c: byte) {
    || '0' as int <= c <= '9' as int
    || ('A' as int <= c <= 'Z' as int && c != 'I' as int && c != 'L' as int && c != 'O' as int && c != 'U' as int)
    || c == '-' as int
  }

  /** The character repertoire of section 2 of RFC 3986. */
  predicate UrlChar(c: byte) {
    || 'A' as int <= c <= 'Z' as int
    || 'a' as int <= c <= 'z' as int
    || '0' as int <= c <= '9' as int
    || c in MARKS
  }

  /** The alphabet of Crockford's base 32, without I, L, O and U, and the dash. */
  lemma {:induction false} CodeIff(c: byte)
    ensures CodeChar(c) <==>
            || c in Ascii("0123456789") || c in Ascii("ABCDEFGH") || c in Ascii("JKMN")
            || c in Ascii("PQRST") || c in Ascii("VWXYZ") || c in Ascii("-")
  {
    RangeOf(c, "0123456789", '0', '9');
    RangeOf(c, "ABCDEFGH", 'A', 'H');
    RangeOf(c, "PQRST", 'P', 'T');
    RangeOf(c, "VWXYZ", 'V', 'Z');
    InText(c, "JKMN");
    InText(c, "-");
    hide Ascii;
  }

  /** The unreserved and reserved characters of RFC 3986, and the percent sign. */
  lemma {:induction false} UrlIff(c: byte)
    ensures UrlChar(c) <==>
            || c in Ascii("ABCDEFGHIJKLMNOPQRSTUVWXYZ") || c in Ascii("abcdefghijklmnopqrstuvwxyz")
            || c in Ascii("0123456789") || c in Ascii("-._~:/?#[]@!$&'()*+,;=%")
  {
    RangeOf(c, "ABCDEFGHIJKLMNOPQRSTUVWXYZ", 'A', 'Z');
    RangeOf(c, "abcdefghijklmnopqrstuvwxyz", 'a', 'z');
    RangeOf(c, "0123456789", '0', '9');
    hide Ascii;
  }

  /** Membership in a text of characters that follow one another. */
  lemma {:induction false} RangeOf(c: byte, s: string, from: char, to: char)
    requires |s| > 0 && from as int < 128 && to as int < 128
    requires (forall i :: 0 <= i < |s| ==> s[i] as int == from as int + i) && s[|s| - 1] == to
    ensures c in Ascii(s) <==> from as int <= c <= to as int
  {
    if c in Ascii(s) {
      var i: nat :| i < |s| && Ascii(s)[i] == c;
      assert s[i] as int == from as int + i;
    }
    if from as int <= c <= to as int {
      var i := c - from as int;
      assert s[i] as int == c && Ascii(s)[i] == c;
    }
  }

  lemma {:induction false} InText(c: byte, s: string)
    requires forall ch :: ch in s ==> ch as int < 256
    ensures c in Ascii(s) <==> c as char in s
  {
    if c in Ascii(s) {
      var i: nat :| i < |s| && Ascii(s)[i] == c;
      assert s[i] in s;
      assert s[i] as int == c;
    }
    if c as char in s {
      var i: nat :| i < |s| && s[i] == c as char;
      assert Ascii(s)[i] == c;
    }
  }

  /** How many bytes the text starts with that are taken whole; 0 when its first byte is dropped. */
  function Take(cls: TextClass, s: bytes): (t: nat)
    requires s != []
    ensures t <= 3 && t <= |s|
  {
    match cls
    case Code => if CodeChar(s[0]) then 1 else 0
    case Url => if UrlChar(s[0]) then 1 else 0
    case Qr =>
      if s[0] == SPACE || s[0] == LF then 1
      else if |s| >= 3 && (s[..3] == UPPER || s[..3] == LOWER || s[..3] == BOTH) then 3
      else 0
  }

  /** The text without what the class does not allow, whatever the buffer. */
  function Clean(cls: TextClass, s: bytes): (r: bytes)
    decreases |s|
  {
    if s == [] then []
    else
      var t := Take(cls, s);
      if t == 0 then Clean(cls, s[1..]) else s[..t] + Clean(cls, s[t..])
  }

  /** What is kept in `room` bytes and how many bytes are dropped; when a piece does not fit,
      everything from it on is dropped. */
  function Filter(cls: TextClass, s: bytes, room: nat): (r: (bytes, nat))
    ensures |r.0| <= room
    decreases |s|
  {
    if s == [] then ([], 0)
    else
      var t := Take(cls, s);
      if t == 0 then
        var r := Filter(cls, s[1..], room);
        (r.0, r.1 + 1)
      else if t > room then ([], |s|)
      else
        var r := Filter(cls, s[t..], room - t);
        (s[..t] + r.0, r.1)
  }

  // -------------------------------------------------------------------- theorems

  /** Every byte is either kept or counted as dropped; what is kept is the beginning of the clean
      text, and all of it when that fits. */
  lemma {:induction false} FilterMeans(cls: TextClass, s: bytes, room: nat)
    ensures var (kept, dropped) := Filter(cls, s, room);
            && |kept| + dropped == |s|
            && |kept| <= room
            && kept <= Clean(cls, s)
            && (|Clean(cls, s)| <= room ==> kept == Clean(cls, s))
    decreases |s|
  {
    hide Take;
    if s != [] {
      var t := Take(cls, s);
      if t == 0 {
        FilterMeans(cls, s[1..], room);
      } else if t <= room {
        FilterMeans(cls, s[t..], room - t);
      }
    }
  }

  lemma {:induction false} TakeFront(cls: TextClass, piece: bytes, rest: bytes)
    requires piece != [] && Take(cls, piece) == |piece|
    ensures Take(cls, piece + rest) == |piece|
  {
    if |piece| == 3 {
      assert (piece + rest)[..3] == piece[..3];
    }
  }

  lemma {:induction false} TakePiece(cls: TextClass, s: bytes)
    requires s != [] && Take(cls, s) > 0
    ensures Take(cls, s[..Take(cls, s)]) == Take(cls, s)
  {
    if Take(cls, s) == 3 {
      assert s[..3][..3] == s[..3];
    }
  }

  /** Filtering what was kept keeps it whole: twice is once. */
  lemma {:induction false} FilterTwice(cls: TextClass, s: bytes, room: nat)
    ensures var kept := Filter(cls, s, room).0;
            Filter(cls, kept, room) == (kept, 0)
    decreases |s|
  {
    if s != [] {
      var t := Take(cls, s);
      if t == 0 {
        FilterTwice(cls, s[1..], room);
      } else if t <= room {
        FilterTwice(cls, s[t..], room - t);
        var rest := Filter(cls, s[t..], room - t).0;
        TakePiece(cls, s);
        TakeFront(cls, s[..t], rest);
        assert (s[..t] + rest)[t..] == rest && (s[..t] + rest)[..t] == s[..t];
      }
    }
  }

  /** What a class lets through as a whole: one character of its alphabet, or one block of three bytes. */
  predicate IsPiece(cls: TextClass, p: bytes) {
    match cls
    case Code => |p| == 1 && CodeChar(p[0])
    case Url => |p| == 1 && UrlChar(p[0])
    case Qr => p == [SPACE] || p == [LF] || p == UPPER || p == LOWER || p == BOTH
  }

  predicate ArePieces(cls: TextClass, ps: seq<bytes>) {
    forall i :: 0 <= i < |ps| ==> IsPiece(cls, ps[i])
  }

  function Concat(ps: seq<bytes>): bytes {
    if ps == [] then [] else ps[0] + Concat(ps[1..])
  }

  lemma {:induction false} PieceIsTaken(cls: TextClass, p: bytes)
    ensures IsPiece(cls, p) <==> p != [] && Take(cls, p) == |p|
  {
    if |p| == 3 {
      assert p[..3] == p;
    }
  }

  lemma {:induction false} PieceAhead(cls: TextClass, p: bytes, ps: seq<bytes>)
    requires IsPiece(cls, p) && ArePieces(cls, ps)
    ensures ArePieces(cls, [p] + ps) && Concat([p] + ps) == p + Concat(ps)
  {
    hide IsPiece;
    assert ([p] + ps)[1..] == ps;
  }

  /** Nothing outside the class reaches the terminal: what is kept is whole pieces, one after another. */
  lemma {:induction false} KeptIsAllowed(cls: TextClass, s: bytes, room: nat)
    ensures exists ps :: ArePieces(cls, ps) && Filter(cls, s, room).0 == Concat(ps)
    decreases |s|
  {
    hide Take, IsPiece;
    if s == [] {
      assert ArePieces(cls, []) && Concat([]) == [];
    } else {
      var t := Take(cls, s);
      if t == 0 {
        KeptIsAllowed(cls, s[1..], room);
      } else if t > room {
        assert ArePieces(cls, []) && Concat([]) == [];
      } else {
        KeptIsAllowed(cls, s[t..], room - t);
        var ps :| ArePieces(cls, ps) && Filter(cls, s[t..], room - t).0 == Concat(ps);
        TakePiece(cls, s);
        PieceIsTaken(cls, s[..t]);
        PieceAhead(cls, s[..t], ps);
      }
    }
  }

  lemma {:induction false} PiecesPass(cls: TextClass, ps: seq<bytes>, room: nat)
    requires ArePieces(cls, ps) && |Concat(ps)| <= room
    ensures Filter(cls, Concat(ps), room) == (Concat(ps), 0)
  {
    hide Take, IsPiece;
    if ps != [] {
      var p, rest := ps[0], Concat(ps[1..]);
      PieceIsTaken(cls, p);
      TakeFront(cls, p, rest);
      PiecesPass(cls, ps[1..], room - |p|);
      assert (p + rest)[..|p|] == p && (p + rest)[|p|..] == rest;
    }
  }

  /** The texts that pass unchanged are exactly the concatenations of pieces that fit. */
  lemma {:induction false} PassesIff(cls: TextClass, s: bytes, room: nat)
    ensures Filter(cls, s, room) == (s, 0) <==> |s| <= room && exists ps :: ArePieces(cls, ps) && s == Concat(ps)
  {
    hide Take, IsPiece, ArePieces;
    KeptIsAllowed(cls, s, room);
    FilterMeans(cls, s, room);
    forall ps | |s| <= room && ArePieces(cls, ps) && s == Concat(ps) ensures Filter(cls, s, room) == (s, 0) {
      PiecesPass(cls, ps, room);
    }
  }

  // ------------------------------------------------------------- the C functions

  /** One piece at i; reads at most the three bytes it compares, never past the terminator. */
  method TakeBlock(s: bytes, i: nat) returns (take: nat)
    requires NulFree(s) && i < |s|
    ensures take == Take(Qr, s[i..])
  {
    var c := At(s, i);
    if c == SPACE || c == LF {
      return 1;
    }
    take := 0;
    if At(s, i + 1) != 0 && At(s, i + 2) != 0 {
      assert s[i..][..3] == s[i..i + 3];
      var blocks := [UPPER, LOWER, BOTH];
      var k := 0;
      while k < |blocks|
        invariant 0 <= k <= 3
        invariant forall j :: 0 <= j < k ==> s[i..i + 3] != blocks[j]
      {
        if s[i..i + 3] == blocks[k] {
          return 3;
        }
        k := k + 1;
      }
      assert blocks[0] == UPPER && blocks[1] == LOWER && blocks[2] == BOTH;
    }
  }

  /** What the whole filter gives once `kept` is written, `dropped` is counted and i is reached. */
  ghost function Outlook(cls: TextClass, s: bytes, i: nat, kept: bytes, dropped: nat, room: nat): (bytes, nat)
    requires i <= |s| && |kept| <= room
  {
    var rest := Filter(cls, s[i..], room - |kept|);
    (kept + rest.0, dropped + rest.1)
  }

  lemma {:induction false} OutlookStart(cls: TextClass, s: bytes, room: nat)
    ensures Outlook(cls, s, 0, [], 0, room) == Filter(cls, s, room)
  {
    assert s[0..] == s && forall x: bytes :: [] + x == x;
  }

  lemma {:induction false} OutlookEnd(cls: TextClass, s: bytes, kept: bytes, dropped: nat, room: nat)
    requires |kept| <= room
    ensures Outlook(cls, s, |s|, kept, dropped, room) == (kept, dropped)
  {
    assert kept + [] == kept;
  }

  lemma {:induction false} FilterFront(cls: TextClass, s: bytes, room: nat)
    requires s != []
    ensures var t := Take(cls, s);
            && (t == 0 ==> Filter(cls, s, room) == (Filter(cls, s[1..], room).0, Filter(cls, s[1..], room).1 + 1))
            && (t > room ==> Filter(cls, s, room) == ([], |s|))
            && (0 < t <= room ==>
                  Filter(cls, s, room) == (s[..t] + Filter(cls, s[t..], room - t).0, Filter(cls, s[t..], room - t).1))
  {
    hide Take;
  }

  lemma {:induction false} SliceOfRest(s: bytes, i: nat, k: nat)
    requires i + k <= |s|
    ensures s[i..][k..] == s[i + k..] && s[i..][..k] == s[i..i + k]
  {}

  lemma {:induction false} FilterAt(cls: TextClass, s: bytes, i: nat, room: nat)
    requires i < |s|
    ensures var t := Take(cls, s[i..]);
            && (t == 0 ==>
                  Filter(cls, s[i..], room) == (Filter(cls, s[i + 1..], room).0, Filter(cls, s[i + 1..], room).1 + 1))
            && (t > room ==> Filter(cls, s[i..], room) == ([], |s| - i))
            && (0 < t <= room ==>
                  Filter(cls, s[i..], room) ==
                  (s[i..i + t] + Filter(cls, s[i + t..], room - t).0, Filter(cls, s[i + t..], room - t).1))
  {
    hide Take, Filter;
    FilterFront(cls, s[i..], room);
    SliceOfRest(s, i, 1);
    SliceOfRest(s, i, Take(cls, s[i..]));
  }

  lemma {:induction false} OutlookDrop(cls: TextClass, s: bytes, i: nat, kept: bytes, dropped: nat, room: nat)
    requires i < |s| && |kept| <= room
    ensures Take(cls, s[i..]) == 0 ==>
              Outlook(cls, s, i, kept, dropped, room) == Outlook(cls, s, i + 1, kept, dropped + 1, room)
    ensures |kept| + Take(cls, s[i..]) > room ==> Outlook(cls, s, i, kept, dropped, room) == (kept, dropped + (|s| - i))
  {
    hide Take, Filter;
    FilterAt(cls, s, i, room - |kept|);
    assert kept + [] == kept;
  }

  lemma {:induction false} OutlookKeep(cls: TextClass, s: bytes, i: nat, t: nat, kept: bytes, dropped: nat, room: nat)
    requires i < |s| && 0 < t == Take(cls, s[i..]) && |kept| + t <= room
    ensures Outlook(cls, s, i, kept, dropped, room) == Outlook(cls, s, i + t, kept + s[i..i + t], dropped, room)
  {
    hide Take, Filter;
    FilterAt(cls, s, i, room - |kept|);
    var piece, left := s[i..i + t], room - |kept| - t;
    ConcatAssoc(kept, piece, Filter(cls, s[i + t..], left).0);
    assert room - |kept + piece| == left;
  }

  /** An out buffer of any size; an empty one drops everything. */
  method Sanitize(cls: TextClass, s: bytes, out: array<byte>) returns (dropped: nat)
    requires NulFree(s)
    modifies out
    ensures out.Length == 0 ==> dropped == |s|
    ensures out.Length > 0 ==>
              var (kept, n) := Filter(cls, s, out.Length - 1);
              dropped == n && out[..|kept|] == kept && out[|kept|] == 0
  {
    hide Take, Filter, Outlook;
    if out.Length == 0 {
      return |s|;
    }
    var w, i := 0, 0;
    dropped := 0;
    OutlookStart(cls, s, out.Length - 1);
    assert out[..0] == [];
    while i < |s|
      invariant 0 <= i <= |s| && 0 <= w < out.Length
      invariant Outlook(cls, s, i, out[..w], dropped, out.Length - 1) == Filter(cls, s, out.Length - 1)
      decreases |s| - i
    {
      var t := TakeOne(cls, s, i);
      OutlookDrop(cls, s, i, out[..w], dropped, out.Length - 1);
      if t == 0 {
        dropped, i := dropped + 1, i + 1;
        continue;
      }
      if w + t + 1 > out.Length {
        dropped, i := dropped + (|s| - i), |s|;
        OutlookEnd(cls, s, out[..w], dropped, out.Length - 1);
        break;
      }
      OutlookKeep(cls, s, i, t, out[..w], dropped, out.Length - 1);
      Copy(out, w, s[i..i + t]);
      w, i := w + t, i + t;
    }
    OutlookEnd(cls, s, out[..w], dropped, out.Length - 1);
    out[w] := 0;
  }

  method TakeOne(cls: TextClass, s: bytes, i: nat) returns (take: nat)
    requires NulFree(s) && i < |s|
    ensures take == Take(cls, s[i..])
  {
    match cls {
      case Code => take := if CodeChar(At(s, i)) then 1 else 0;
      case Url => take := if UrlChar(At(s, i)) then 1 else 0;
      case Qr => take := TakeBlock(s, i);
    }
  }
}
