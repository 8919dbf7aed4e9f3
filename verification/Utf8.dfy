/** Well-formed UTF-8 (table 3-7 of the Unicode Standard), the test behind `str::from_utf8`. */
module Utf8 {
  import opened Bits

  predicate Continuation(b: byte) { 0x80 <= b <= 0xBF }

  /** Bytes taken by the well-formed character at the head of `s`; 0 when there is none. */
  function CharLen(s: seq<byte>): (n: nat)
    ensures n <= |s| && n <= 4
    ensures n == 0 || n == 1 <==> n == 0 || s[0] < 0x80
  {
    if |s| >= 1 && s[0] < 0x80 then 1
    else if |s| >= 2 && 0xC2 <= s[0] <= 0xDF && Continuation(s[1]) then 2
    else if |s| >= 3 && 0xE0 <= s[0] <= 0xEF && Continuation(s[1]) && Continuation(s[2])
            && (s[0] == 0xE0 ==> s[1] >= 0xA0) && (s[0] == 0xED ==> s[1] <= 0x9F) then 3
    else if |s| >= 4 && 0xF0 <= s[0] <= 0xF4 && Continuation(s[1]) && Continuation(s[2]) && Continuation(s[3])
            && (s[0] == 0xF0 ==> s[1] >= 0x90) && (s[0] == 0xF4 ==> s[1] <= 0x8F) then 4
    else 0
  }

  predicate Valid(s: seq<byte>)
  {
    s == [] || (var n := CharLen(s); n > 0 && Valid(s[n..]))
  }

  predicate Ascii(s: seq<byte>) { forall i :: 0 <= i < |s| ==> s[i] < 0x80 }

  /** Well-formed texts concatenate to well-formed texts. */
  lemma {:induction false} ValidConcat(a: seq<byte>, b: seq<byte>)
    requires Valid(a) && Valid(b)
    ensures Valid(a + b)
    decreases |a|
  {
    if a == [] {
      assert a + b == b;
    } else {
      var n := CharLen(a);
      CharLenExtends(a, b);
      ValidConcat(a[n..], b);
      assert (a + b)[n..] == a[n..] + b;
      OneMoreChar(a + b, n);
    }
  }

  lemma OneMoreChar(s: seq<byte>, n: nat)
    requires n == CharLen(s) > 0 && Valid(s[n..])
    ensures Valid(s)
  {
  }

  lemma CharLenExtends(a: seq<byte>, b: seq<byte>)
    requires CharLen(a) > 0
    ensures CharLen(a + b) == CharLen(a)
  {
    var n := CharLen(a);
    assert forall i :: 0 <= i < n ==> (a + b)[i] == a[i];
  }

  lemma {:induction false} AsciiIsValid(s: seq<byte>)
    requires Ascii(s)
    ensures Valid(s)
    decreases |s|
  {
    if s != [] {
      assert CharLen(s) == 1;
      AsciiIsValid(s[1..]);
    }
  }
}
