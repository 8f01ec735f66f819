/** Bytes, and the string tests the store and the reaper use on file names:
    prefix (`str.startswith`, `find -name "<uid>.*"`), suffix (`str.endswith`)
    and infix (`find -name "*.expires.*"`). */
module Text {
  import opened Wrappers

  newtype byte = b: int | 0 <= b < 256

  /** The newline byte 0x0A that separates a plain paste's header from its body. */
  const Newline: byte := 10

  predicate StartsWith(s: string, prefix: string) {
    prefix <= s
  }

  predicate EndsWith(s: string, suffix: string) {
    |suffix| <= |s| && s[|s| - |suffix|..] == suffix
  }

  /** `t` occurs somewhere inside `s` (the glob `*t*`). */
  predicate IsInfix(t: string, s: string)
    decreases |s|
  {
    t <= s || (|s| > 0 && IsInfix(t, s[1..]))
  }

  /** An occurrence of `t` lies inside `s`, so `s` is at least as long as `t`. */
  lemma {:induction false} InfixNoLonger(t: string, s: string)
    requires IsInfix(t, s)
    ensures |t| <= |s|
    decreases |s|
  {
    if !(t <= s) {
      InfixNoLonger(t, s[1..]);
    }
  }

  /** A prefix of the tail is an infix of the whole. */
  lemma {:induction false} InfixOfTail(t: string, a: string, b: string)
    requires t <= b
    ensures IsInfix(t, a + b)
    decreases |a|
  {
    if a == [] {
      assert a + b == b;
    } else {
      assert (a + b)[1..] == a[1..] + b;
      InfixOfTail(t, a[1..], b);
    }
  }

  /** An infix that starts with `d` cannot begin inside a head free of `d`:
      it lies inside the tail. */
  lemma {:induction false} InfixSkipsHead(t: string, a: string, b: string, d: char)
    requires |t| > 0 && t[0] == d
    requires forall i :: 0 <= i < |a| ==> a[i] != d
    requires IsInfix(t, a + b)
    ensures IsInfix(t, b)
    decreases |a|
  {
    if a != [] {
      assert (a + b)[0] == a[0];
      assert !(t <= a + b);
      assert (a + b)[1..] == a[1..] + b;
      InfixSkipsHead(t, a[1..], b, d);
    } else {
      assert a + b == b;
    }
  }

  predicate IsAscii(s: string) {
    forall i :: 0 <= i < |s| ==> s[i] as int < 128
  }

  /** `str.encode()` on a string that is pure ASCII: one byte per character. */
  function AsciiBytes(s: string): (r: seq<byte>)
    requires IsAscii(s)
    ensures |r| == |s|
    ensures forall i :: 0 <= i < |s| ==> r[i] as int == s[i] as int
  {
    if s == [] then [] else [s[0] as int as byte] + AsciiBytes(s[1..])
  }

  /** `bytes.decode()` restricted to ASCII: fails on any byte of 0x80 or above. */
  function AsciiDecode(bs: seq<byte>): (r: Option<string>)
    ensures r.Some? <==> forall i :: 0 <= i < |bs| ==> bs[i] < 128
    ensures r.Some? ==> |r.value| == |bs| && forall i :: 0 <= i < |bs| ==> r.value[i] as int == bs[i] as int
  {
    if bs == [] then Some("")
    else if bs[0] >= 128 then None
    else match AsciiDecode(bs[1..])
      case None => None
      case Some(t) => Some([bs[0] as int as char] + t)
  }

  lemma AsciiRoundTrip(s: string)
    requires IsAscii(s)
    ensures AsciiDecode(AsciiBytes(s)) == Some(s)
  {
    var r := AsciiDecode(AsciiBytes(s));
    assert r.Some?;
    assert r.value == s;
  }
}
