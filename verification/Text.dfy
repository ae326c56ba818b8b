/** Python string operations: find, strip and whitespace. */
module Text {

  /** `str.isspace` for one character. */
  predicate IsSpace(c: char) {
    var n := c as int;
    || 9 <= n <= 13 || 28 <= n <= 32 || n == 0x85 || n == 0xA0 || n == 0x1680 || 0x2000 <= n <= 0x200A
    || n == 0x2028 || n == 0x2029 || n == 0x202F || n == 0x205F || n == 0x3000
  }

  predicate At(s: string, pattern: string, i: int) {
    0 <= i && i + |pattern| <= |s| && forall k :: 0 <= k < |pattern| ==> s[i + k] == pattern[k]
  }

  /** `s.find(pattern, from)`: the first occurrence at or after `from`, or -1. */
  function Find(s: string, pattern: string, from: nat): (r: int)
    ensures r == -1 || (from <= r && At(s, pattern, r))
    ensures forall i :: from <= i && (r < 0 || i < r) ==> !At(s, pattern, i)
    decreases |s| - from
  {
    if from + |pattern| > |s| then -1
    else if At(s, pattern, from) then from
    else Find(s, pattern, from + 1)
  }

  lemma {:induction false} FindIs(s: string, pattern: string, from: nat, k: nat)
    requires from <= k && At(s, pattern, k) && forall i :: from <= i < k ==> !At(s, pattern, i)
    ensures Find(s, pattern, from) == k
  {
    var r := Find(s, pattern, from);
    assert r < 0 ==> !At(s, pattern, k);
  }

  lemma {:induction false} FindNothing(s: string, pattern: string, from: nat)
    requires forall i :: from <= i ==> !At(s, pattern, i)
    ensures Find(s, pattern, from) == -1
  {}

  function RStrip(s: string): (r: string)
    ensures r <= s
    ensures r != "" ==> !IsSpace(r[|r| - 1])
    ensures forall i :: |r| <= i < |s| ==> IsSpace(s[i])
  {
    if s == "" || !IsSpace(s[|s| - 1]) then s else RStrip(s[..|s| - 1])
  }

  function LStrip(s: string): (r: string)
    ensures |r| <= |s| && r == s[|s| - |r|..]
    ensures r != "" ==> !IsSpace(r[0])
    ensures forall i :: 0 <= i < |s| - |r| ==> IsSpace(s[i])
  {
    if s == "" || !IsSpace(s[0]) then s else LStrip(s[1..])
  }

  function Strip(s: string): string { RStrip(LStrip(s)) }

  /** The two contracts determine the results. */
  lemma {:induction false} RStripIs(s: string, n: nat)
    requires n <= |s| && (n > 0 ==> !IsSpace(s[n - 1])) && forall i :: n <= i < |s| ==> IsSpace(s[i])
    ensures RStrip(s) == s[..n]
  {
    hide IsSpace;
    var r := RStrip(s);
    assert r == s[..|r|];
    assert forall i :: 0 <= i < |r| ==> r[i] == s[i];
  }

  lemma {:induction false} LStripIs(s: string, n: nat)
    requires n <= |s| && (n < |s| ==> !IsSpace(s[n])) && forall i :: 0 <= i < n ==> IsSpace(s[i])
    ensures LStrip(s) == s[n..]
  {
    hide IsSpace;
    var r := LStrip(s);
    var k := |s| - |r|;
    assert forall i :: 0 <= i < |r| ==> r[i] == s[k + i];
  }

  const WHITESPACE: set<int> :=
    {0x09, 0x0A, 0x0B, 0x0C, 0x0D, 0x1C, 0x1D, 0x1E, 0x1F, 0x20, 0x85, 0xA0, 0x1680, 0x2000, 0x2001, 0x2002, 0x2003, 0x2004,
     0x2005, 0x2006, 0x2007, 0x2008, 0x2009, 0x200A, 0x2028, 0x2029, 0x202F, 0x205F, 0x3000}

  /** The whitespace characters one by one. */
  lemma SpacesAre(c: char)
    ensures IsSpace(c) <==> c as int in WHITESPACE
  {}
}
