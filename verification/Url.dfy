/** Server-relative paths behind the configured origin. */
module Url {
  import opened Bytes

  /** An absolute path behind the origin; anything else is refused, and so is what does not fit. */
  function Join(base: bytes, rel: bytes, cap: nat): Option<bytes> {
    if rel == [] || rel[0] != SLASH || (|rel| > 1 && rel[1] == SLASH) || |base| + |rel| + 1 > cap then None
    else Some(base + rel)
  }

  /** The joined URL is the origin with the path behind it, and that is all it can be. */
  lemma {:induction false} JoinIff(base: bytes, rel: bytes, cap: nat, url: bytes)
    ensures Join(base, rel, cap) == Some(url) <==>
            && url == base + rel && Ascii("/") <= rel && !(Ascii("//") <= rel) && |url| < cap
  {
    assert Ascii("/") == [SLASH] && Ascii("//") == [SLASH, SLASH];
    assert rel != [] ==> rel[..1] == [rel[0]];
    assert |rel| > 1 ==> rel[..2] == [rel[0], rel[1]];
  }

  // ------------------------------------------------- the authority of a URL

  /** What ends an authority, by section 3.2 of RFC 3986. */
  predicate EndsAuthority(c: byte) {
    c == SLASH || c == '?' as int || c == '#' as int
  }

  function AuthorityEnd(url: bytes, i: nat): (r: nat)
    requires i <= |url|
    ensures i <= r <= |url|
    decreases |url| - i
  {
    if i < |url| && !EndsAuthority(url[i]) then AuthorityEnd(url, i + 1) else i
  }

  function SchemeEnd(url: bytes, i: nat): (r: nat)
    requires i <= |url|
    ensures i <= r <= |url|
    decreases |url| - i
  {
    if i < |url| && url[i] != COLON then SchemeEnd(url, i + 1) else i
  }

  /** Where the authority starts: behind the first colon and two slashes. */
  function AuthorityStart(url: bytes): (r: Option<nat>)
    ensures r.Some? ==> r.value <= |url|
  {
    var k := SchemeEnd(url, 0);
    if k + 3 <= |url| && url[k + 1] == SLASH && url[k + 2] == SLASH then Some(k + 3) else None
  }

  /** User, host and port: the part that decides where a request goes. */
  function Authority(url: bytes): Option<bytes> {
    var start := AuthorityStart(url);
    if start.None? then None else Some(url[start.value..AuthorityEnd(url, start.value)])
  }

  /** The authority is the last thing in the text: scheme://host and no more. */
  predicate IsBare(base: bytes) {
    AuthorityStart(base).Some? && AuthorityEnd(base, AuthorityStart(base).value) == |base|
  }

  lemma {:induction false} AuthorityEndAppend(a: bytes, b: bytes, i: nat)
    requires i <= |a|
    ensures AuthorityEnd(a + b, i) ==
            if AuthorityEnd(a, i) < |a| then AuthorityEnd(a, i) else |a| + AuthorityEnd(b, 0)
    decreases |a| - i
  {
    if i < |a| {
      assert (a + b)[i] == a[i];
      if !EndsAuthority(a[i]) {
        AuthorityEndAppend(a, b, i + 1);
      }
    } else {
      AuthorityEndShift(a, b, 0);
    }
  }

  lemma {:induction false} AuthorityEndShift(a: bytes, b: bytes, i: nat)
    requires i <= |b|
    ensures AuthorityEnd(a + b, |a| + i) == |a| + AuthorityEnd(b, i)
    decreases |b| - i
  {
    if i < |b| {
      assert (a + b)[|a| + i] == b[i];
      AuthorityEndShift(a, b, i + 1);
    }
  }

  lemma {:induction false} SchemeEndAppend(a: bytes, b: bytes, i: nat)
    requires i <= |a| && SchemeEnd(a, i) < |a|
    ensures SchemeEnd(a + b, i) == SchemeEnd(a, i)
    decreases |a| - i
  {
    assert (a + b)[i] == a[i];
    if a[i] != COLON {
      SchemeEndAppend(a, b, i + 1);
    }
  }

  lemma {:induction false} StartAppend(base: bytes, rel: bytes)
    requires AuthorityStart(base).Some?
    ensures AuthorityStart(base + rel) == AuthorityStart(base)
  {
    SchemeEndAppend(base, rel, 0);
    var k := SchemeEnd(base, 0);
    assert (base + rel)[k + 1] == base[k + 1] && (base + rel)[k + 2] == base[k + 2];
  }

  /** Text put behind a URL leaves its authority alone exactly when the URL already goes on past it, or
      the text is empty or starts with what ends an authority. */
  lemma {:induction false} AuthorityBehind(base: bytes, rel: bytes)
    requires AuthorityStart(base).Some?
    ensures Authority(base + rel) == Authority(base) <==>
            !IsBare(base) || rel == [] || EndsAuthority(rel[0])
  {
    hide EndsAuthority;
    var url, start := base + rel, AuthorityStart(base).value;
    StartAppend(base, rel);
    AuthorityEndAppend(base, rel, start);
    var end := AuthorityEnd(base, start);
    assert url[start..end] == base[start..end];
    if IsBare(base) {
      assert url[start..AuthorityEnd(url, start)] == base[start..] + rel[..AuthorityEnd(rel, 0)];
      assert base[start..] == base[start..end];
    }
  }

  /** A joined URL goes where the configured origin says, whatever the server's value holds. */
  lemma {:induction false} JoinKeepsAuthority(base: bytes, rel: bytes, cap: nat)
    requires AuthorityStart(base).Some? && Join(base, rel, cap).Some?
    ensures Authority(Join(base, rel, cap).value) == Authority(base)
  {
    AuthorityBehind(base, rel);
  }

  /** What the leading slash keeps out: behind a bare origin, a value such as "@evil" or ".evil" would
      change the authority, and each is refused. */
  lemma {:induction false} WithoutSlash(base: bytes, rel: bytes, cap: nat)
    requires IsBare(base) && rel != [] && !EndsAuthority(rel[0])
    ensures Authority(base + rel) != Authority(base) && Join(base, rel, cap) == None
  {
    AuthorityBehind(base, rel);
  }

  const GOOD := ['g' as int, 'o' as int, 'o' as int, 'd' as int]
  const ORIGIN := ['h' as int, 't' as int, 't' as int, 'p' as int, 's' as int, COLON, SLASH, SLASH] + GOOD
  const ELSEWHERE := ['@' as int, 'b' as int, 'a' as int, 'd' as int]

  /** https://good with "@bad/" behind it would ask "bad". */
  lemma {:induction false} AnotherHost(cap: nat)
    ensures Authority(ORIGIN) == Some(GOOD) && Authority(ORIGIN + (ELSEWHERE + [SLASH])) == Some(GOOD + ELSEWHERE)
    ensures Join(ORIGIN, ELSEWHERE + [SLASH], cap) == None
  {
    var rel := ELSEWHERE + [SLASH];
    StartsAt(ORIGIN, 5);
    EndsAt(ORIGIN, 8, 12);
    EndsAt(rel, 0, 4);
    StartAppend(ORIGIN, rel);
    AuthorityEndAppend(ORIGIN, rel, 8);
    assert ORIGIN[8..12] == GOOD && (ORIGIN + rel)[8..16] == GOOD + ELSEWHERE;
  }

  lemma {:induction false} StartsAt(url: bytes, k: nat)
    requires k + 3 <= |url| && url[k] == COLON && url[k + 1] == SLASH && url[k + 2] == SLASH
    requires forall i :: 0 <= i < k ==> url[i] != COLON
    ensures AuthorityStart(url) == Some(k + 3)
  {
    SchemeEndAt(url, 0, k);
  }

  lemma {:induction false} SchemeEndAt(url: bytes, i: nat, k: nat)
    requires i <= k < |url| && url[k] == COLON && forall j :: i <= j < k ==> url[j] != COLON
    ensures SchemeEnd(url, i) == k
    decreases k - i
  {
    if i < k {
      SchemeEndAt(url, i + 1, k);
    }
  }

  lemma {:induction false} EndsAt(url: bytes, i: nat, k: nat)
    requires i <= k <= |url| && (k == |url| || EndsAuthority(url[k]))
             && forall j :: i <= j < k ==> !EndsAuthority(url[j])
    ensures AuthorityEnd(url, i) == k
    decreases k - i
  {
    if i < k {
      EndsAt(url, i + 1, k);
    }
  }

  /** Joins in place, so the value may be the destination's own old text. */
  method JoinInto(base: bytes, rel: bytes, cap: nat) returns (r: Option<bytes>)
    requires NulFree(rel)
    ensures r == Join(base, rel, cap)
    ensures r.Some? && AuthorityStart(base).Some? ==> Authority(r.value) == Authority(base)
  {
    if At(rel, 0) != SLASH || At(rel, 1) == SLASH {
      return None;
    }
    if |base| + |rel| + 1 > cap {
      return None;
    }
    if AuthorityStart(base).Some? {
      JoinKeepsAuthority(base, rel, cap);
    }
    return Some(base + rel);
  }
}
