/** Collapsing repeated guidance slots in a model context to the last one. */
module GuidanceSlot {
  import opened Ordering
  import opened Text

  const OPENING := "===== CURRENT BEHAVIOR GUIDANCE ====="
  const CLOSING := "===== END CURRENT BEHAVIOR GUIDANCE ====="

  /** One line of text that neither starts nor ends with whitespace. */
  ghost predicate Marker(m: string) {
    m != "" && !IsSpace(m[0]) && !IsSpace(m[|m| - 1]) && forall i :: 0 <= i < |m| ==> m[i] != '\n'
  }

  lemma BothAreMarkers()
    ensures Marker(OPENING) && Marker(CLOSING)
  {}

  /** The non-overlapping occurrences from `cursor` on, as the scan loop finds them. */
  ghost function Starts(s: string, opening: string, cursor: nat): seq<int>
    requires opening != ""
    decreases |s| - cursor
  {
    var i := Find(s, opening, cursor);
    if i < 0 then [] else [i] + Starts(s, opening, i + |opening|)
  }

  method ScanStarts(s: string, opening: string) returns (starts: seq<int>)
    requires opening != ""
    ensures starts == Starts(s, opening, 0)
  {
    starts := [];
    var cursor := 0;
    var index := Find(s, opening, cursor);
    while index >= 0
      invariant index == Find(s, opening, cursor)
      invariant Starts(s, opening, 0) == starts + Starts(s, opening, cursor)
      decreases |s| - cursor
    {
      starts := starts + [index];
      cursor := index + |opening|;
      index := Find(s, opening, cursor);
    }
  }

  /** What the slot replacement returns; `None` is the missing-closing-marker error. */
  ghost function Collapsed(s: string, opening: string, closing: string): Option<string>
    requires opening != ""
  {
    var starts := Starts(s, opening, 0);
    if starts == [] then Some(s)
    else
      var last := starts[|starts| - 1];
      if !(0 <= starts[0] <= |s| && 0 <= last <= |s|) || Find(s, closing, last) < 0 then None
      else if |starts| == 1 then Some(s)
      else Some(Strip(RStrip(s[..starts[0]]) + "\n\n" + s[last..]))
  }

  method ReplaceGuidanceSlot(context: string, opening: string, closing: string) returns (r: Option<string>)
    requires Marker(opening) && Marker(closing)
    ensures r == Collapsed(context, opening, closing)
  {
    var starts := ScanStarts(context, opening);
    if starts == [] {
      return Some(context);
    }
    StartsAreOccurrences(context, opening, 0);
    var first, last := starts[0], starts[|starts| - 1];
    var lastEnd := Find(context, closing, last);
    if lastEnd < 0 {
      return None;
    }
    if |starts| == 1 {
      return Some(context);
    }
    var block := context[last..lastEnd + |closing|];
    var suffix := context[lastEnd + |closing|..];
    assert block + suffix == context[last..];
    assert RStrip(context[..first]) + "\n\n" + block + suffix == RStrip(context[..first]) + "\n\n" + (block + suffix);
    return Some(Strip(RStrip(context[..first]) + "\n\n" + block + suffix));
  }

  /** The list holds occurrences from `cursor` on, starts with the first of them and ends where no more follow. */
  ghost predicate IsScan(s: string, opening: string, cursor: nat, starts: seq<int>) {
    && (forall k :: 0 <= k < |starts| ==> starts[k] >= cursor && At(s, opening, starts[k]))
    && (starts != [] ==> starts[|starts| - 1] >= 0 && Find(s, opening, starts[|starts| - 1] + |opening|) == -1)
    && (starts != [] ==> forall i :: cursor <= i < starts[0] ==> !At(s, opening, i))
  }

  lemma {:induction false} StartsAreOccurrences(s: string, opening: string, cursor: nat)
    requires opening != ""
    ensures IsScan(s, opening, cursor, Starts(s, opening, cursor))
    decreases |s| - cursor
  {
    hide At;
    var i := Find(s, opening, cursor);
    if i >= 0 {
      StartsAreOccurrences(s, opening, i + |opening|);
      ScanCons(s, opening, cursor, i, Starts(s, opening, i + |opening|));
    }
  }

  lemma {:induction false} ScanCons(s: string, opening: string, cursor: nat, i: nat, rest: seq<int>)
    requires opening != "" && i == Find(s, opening, cursor)
    requires rest == Starts(s, opening, i + |opening|) && IsScan(s, opening, i + |opening|, rest)
    ensures IsScan(s, opening, cursor, [i] + rest)
  {
    hide At;
    var all := [i] + rest;
    forall k | 0 <= k < |all| ensures all[k] >= cursor && At(s, opening, all[k]) {
      if k > 0 { assert all[k] == rest[k - 1]; }
    }
    if rest != [] { assert all[|all| - 1] == rest[|rest| - 1]; }
  }

  /** A text whose only slot sits behind `head`: `head` has no opening marker and ends with a blank line. */
  ghost predicate Headed(u: string, opening: string, h: nat) {
    && At(u, opening, h)
    && (forall i :: 0 <= i < h ==> !At(u, opening, i))
    && (forall i :: h + |opening| <= i ==> !At(u, opening, i))
  }

  lemma {:induction false} HeadedHasOneStart(u: string, opening: string, h: nat)
    requires opening != "" && Headed(u, opening, h)
    ensures Starts(u, opening, 0) == [h]
  {
    FindIs(u, opening, 0, h);
    FindNothing(u, opening, h + |opening|);
    assert Starts(u, opening, h + |opening|) == [];
  }

  /** No marker can reach across a line break. */
  lemma {:induction false} NoMarkerAcrossNewline(u: string, opening: string, i: int, n: int)
    requires Marker(opening) && 0 <= i <= n < i + |opening| && n < |u| && u[n] == '\n'
    ensures !At(u, opening, i)
  {
    assert opening[n - i] != '\n';
  }

  /** `s` from `a` and `t` from `b` read alike for `n` characters. */
  ghost predicate Agree(s: string, a: int, t: string, b: int, n: int) {
    0 <= a && 0 <= n && a + n <= |s| && 0 <= b && b + n <= |t| && s[a..a + n] == t[b..b + n]
  }

  lemma {:induction false} AtMoves(s: string, a: int, t: string, b: int, n: int, m: string, i: int)
    requires Agree(s, a, t, b, n) && 0 <= i && i + |m| <= n
    ensures At(s, m, a + i) <==> At(t, m, b + i)
  {
    if At(s, m, a + i) {
      forall k | 0 <= k < |m| ensures t[b + i + k] == m[k] {
        assert s[a + i + k] == m[k] && s[a..a + n][i + k] == t[b..b + n][i + k];
      }
    }
    if At(t, m, b + i) {
      forall k | 0 <= k < |m| ensures s[a + i + k] == m[k] {
        assert t[b + i + k] == m[k] && s[a..a + n][i + k] == t[b..b + n][i + k];
      }
    }
  }

  /** Stripping after the last slot keeps any marker that ends in a printing character. */
  lemma {:induction false} MarkerSurvivesRStrip(t: string, m: string, k: int)
    requires Marker(m) && At(t, m, k)
    ensures At(RStrip(t), m, k)
  {
    var r := RStrip(t);
    var end := k + |m| - 1;
    assert t[k + (|m| - 1)] == m[|m| - 1];
    assert end < |r|;
    forall j | 0 <= j < |m| ensures r[k + j] == m[j] {
      assert t[k + j] == m[j];
    }
  }

  /** The text in front of the last slot after stripping. */
  ghost function Head(prefix: string): string {
    var p := RStrip(prefix);
    if p == "" then "" else LStrip(p) + "\n\n"
  }

  lemma {:induction false} StripParts(prefix: string, t: string)
    requires t != "" && !IsSpace(t[0])
    ensures Strip(RStrip(prefix) + "\n\n" + t) == Head(prefix) + RStrip(t)
  {
    var p := RStrip(prefix);
    var head := if p == "" then "" else LStrip(p) + "\n\n";
    hide RStrip, LStrip, IsSpace;
    LStripOfConcat(p, t);
    assert p + "\n\n" + t == p + ("\n\n" + t);
    assert head + t == if p == "" then t else LStrip(p) + ("\n\n" + t);
    RStripOfConcat(head, t);
  }

  lemma {:induction false} LStripOfConcat(p: string, t: string)
    requires t != "" && !IsSpace(t[0]) && (p != "" ==> !IsSpace(p[|p| - 1]))
    ensures LStrip(p + ("\n\n" + t)) == if p == "" then t else LStrip(p) + ("\n\n" + t)
  {
    if p == "" {
      var u := "\n\n" + t;
      assert p + u == u && u[2..] == t;
      LStripIs(u, 2);
    } else {
      LStripNonEmpty(p);
      hide LStrip, IsSpace;
      SkipSpaces(p, "\n\n" + t);
    }
  }

  lemma {:induction false} SkipSpaces(p: string, rest: string)
    requires LStrip(p) != ""
    ensures LStrip(p + rest) == LStrip(p) + rest
  {
    hide IsSpace;
    var start := |p| - |LStrip(p)|;
    var u := p + rest;
    assert u[start] == LStrip(p)[0];
    forall i | 0 <= i < start ensures IsSpace(u[i]) { assert IsSpace(p[i]); }
    LStripIs(u, start);
    assert u[start..] == p[start..] + rest;
  }

  lemma {:induction false} RStripOfConcat(front: string, t: string)
    requires t != "" && !IsSpace(t[0])
    ensures RStrip(front + t) == front + RStrip(t)
  {
    var u, r := front + t, RStrip(t);
    RStripNonEmpty(t);
    var n := |front| + |r|;
    assert u[n - 1] == t[|r| - 1] == r[|r| - 1];
    forall i | n <= i < |u| ensures IsSpace(u[i]) { assert u[i] == t[i - |front|]; }
    RStripIs(u, n);
    assert u[..n] == front + r;
  }

  lemma {:induction false} LStripNonEmpty(p: string)
    requires p != "" && !IsSpace(p[|p| - 1])
    ensures LStrip(p) != ""
  {}

  lemma {:induction false} RStripNonEmpty(t: string)
    requires t != "" && !IsSpace(t[0])
    ensures RStrip(t) != "" && RStrip(t)[0] == t[0]
  {}

  lemma {:induction false} HeadReads(l: string, s: string, a: nat, r: string)
    requires a + |l| <= |s| && l == s[a..a + |l|]
    ensures var u := l + "\n\n" + r; u[|l|] == '\n' && u[|l| + 1] == '\n' && Agree(u, 0, s, a, |l|)
  {
    var u := l + "\n\n" + r;
    assert u[0..0 + |l|] == l;
  }

  lemma {:induction false} NoMarkerInHead(l: string, s: string, a: nat, opening: string, r: string)
    requires Marker(opening) && a + |l| <= |s| && l == s[a..a + |l|]
    requires forall i :: a <= i && i + |opening| <= a + |l| ==> !At(s, opening, i)
    ensures forall i :: 0 <= i < |l| + 2 ==> !At(l + "\n\n" + r, opening, i)
  {
    var u := l + "\n\n" + r;
    HeadReads(l, s, a, r);
    hide At, Agree;
    forall i | 0 <= i < |l| + 2 ensures !At(u, opening, i) {
      if i + |opening| <= |l| {
        AtMoves(u, 0, s, a, |l|, opening, i);
      } else {
        NoMarkerAcrossNewline(u, opening, i, if i <= |l| then |l| else |l| + 1);
      }
    }
  }

  /** The part before the last slot brings no opening marker along. */
  lemma {:induction false} HeadHasNoMarker(s: string, opening: string, first: nat, r: string)
    requires Marker(opening) && first <= |s| && forall i :: 0 <= i < first ==> !At(s, opening, i)
    ensures forall i :: 0 <= i < |Head(s[..first])| ==> !At(Head(s[..first]) + r, opening, i)
  {
    assert opening != "";
    hide At, IsSpace, RStrip, LStrip, Marker;
    var p := RStrip(s[..first]);
    if p != "" {
      var l := LStrip(p);
      var a := |p| - |l|;
      SliceOfSlice(s, first, p, l, a);
      NoMarkerInHead(l, s, a, opening, r);
    }
  }

  lemma {:induction false} SliceOfSlice(s: string, first: nat, p: string, l: string, a: nat)
    requires first <= |s| && p <= s[..first] && a + |l| == |p| && l == p[a..]
    ensures |p| <= first && l == s[a..a + |l|]
  {
    assert p == s[..|p|];
  }

  /** From the last slot on, the result reads like the text: same markers at the same distances. */
  lemma {:induction false} TailMarkers(s: string, last: nat, head: string, m: string, i: nat)
    requires Marker(m) && last <= |s|
    ensures At(head + RStrip(s[last..]), m, |head| + i) <==> At(s, m, last + i)
  {
    var t := s[last..];
    var r := RStrip(t);
    var u := head + r;
    assert Agree(u, |head|, r, 0, |r|);
    assert Agree(s, last, t, 0, |t|);
    if i + |m| <= |t| {
      AtMoves(s, last, t, 0, |t|, m, i);
      if At(t, m, i) { MarkerSurvivesRStrip(t, m, i); }
    }
    if i + |m| <= |r| {
      AtMoves(u, |head|, r, 0, |r|, m, i);
      assert Agree(r, 0, t, 0, |r|);
      AtMoves(r, 0, t, 0, |r|, m, i);
    }
  }

  /** With several slots the result is the cleaned head and, verbatim up to trailing whitespace,
      everything from the last slot on; it has exactly one opening marker and its closing marker. */
  lemma {:induction false} CollapsedKeepsLastSlot(s: string, opening: string, closing: string)
    requires Marker(opening) && Marker(closing)
    requires |Starts(s, opening, 0)| > 1 && Collapsed(s, opening, closing).Some?
    ensures var starts := Starts(s, opening, 0);
            var first, last := starts[0], starts[|starts| - 1];
            && 0 <= first <= |s| && 0 <= last <= |s|
            && Collapsed(s, opening, closing) == Some(Head(s[..first]) + RStrip(s[last..]))
            && Starts(Head(s[..first]) + RStrip(s[last..]), opening, 0) == [|Head(s[..first])|]
            && Find(Head(s[..first]) + RStrip(s[last..]), closing, |Head(s[..first])|) >= 0
  {
    StartsAreOccurrences(s, opening, 0);
    var starts := Starts(s, opening, 0);
    var first, last := starts[0], starts[|starts| - 1];
    assert At(s, opening, first) && At(s, opening, last);
    FirstCharacter(s, opening, last);
    hide At, IsSpace, Starts, Head, RStrip, Strip, Marker, IsScan;
    OneSlotLeft(s, opening, first, last);
    StripParts(s[..first], s[last..]);
    ClosingLeft(s, closing, last, Head(s[..first]));
  }

  lemma {:induction false} FirstCharacter(s: string, m: string, i: int)
    requires Marker(m) && At(s, m, i)
    ensures i < |s| && !IsSpace(s[i])
  {
    assert s[i + 0] == m[0];
  }

  lemma {:induction false} ClosingLeft(s: string, closing: string, last: nat, head: string)
    requires Marker(closing) && last <= |s| && Find(s, closing, last) >= 0
    ensures Find(head + RStrip(s[last..]), closing, |head|) >= 0
  {
    hide At;
    TailMarkers(s, last, head, closing, Find(s, closing, last) - last);
  }

  lemma {:induction false} OneSlotLeft(s: string, opening: string, first: nat, last: nat)
    requires Marker(opening) && first <= |s| && last <= |s| && At(s, opening, last)
    requires forall i :: 0 <= i < first ==> !At(s, opening, i)
    requires Find(s, opening, last + |opening|) == -1
    ensures Starts(Head(s[..first]) + RStrip(s[last..]), opening, 0) == [|Head(s[..first])|]
  {
    hide Head, RStrip, IsSpace, Starts, At;
    var head := Head(s[..first]);
    var u := head + RStrip(s[last..]);
    TailMarkers(s, last, head, opening, 0);
    HeadHasNoMarker(s, opening, first, RStrip(s[last..]));
    forall i | |head| + |opening| <= i ensures !At(u, opening, i) {
      TailMarkers(s, last, head, opening, i - |head|);
    }
    HeadedHasOneStart(u, opening, |head|);
  }

  /** The result has at most one opening marker under the scan. */
  lemma {:induction false} CollapsedHasOneSlot(s: string, opening: string, closing: string)
    requires Marker(opening) && Marker(closing) && Collapsed(s, opening, closing).Some?
    ensures |Starts(Collapsed(s, opening, closing).value, opening, 0)| <= 1
  {
    if |Starts(s, opening, 0)| > 1 {
      CollapsedKeepsLastSlot(s, opening, closing);
    }
  }

  /** Wherever it succeeds, a second replacement succeeds and changes nothing. */
  lemma {:induction false} CollapsedIsIdempotent(s: string, opening: string, closing: string)
    requires Marker(opening) && Marker(closing) && Collapsed(s, opening, closing).Some?
    ensures Collapsed(Collapsed(s, opening, closing).value, opening, closing) == Collapsed(s, opening, closing)
  {
    if |Starts(s, opening, 0)| > 1 {
      CollapsedKeepsLastSlot(s, opening, closing);
    }
  }

  // ---------- texts with at most one slot, and the error ----------

  lemma {:induction false} NoOccurrenceNoStart(s: string, opening: string)
    requires opening != ""
    ensures Starts(s, opening, 0) == [] <==> forall i :: 0 <= i ==> !At(s, opening, i)
  {
    hide At;
    if Find(s, opening, 0) >= 0 { assert At(s, opening, Find(s, opening, 0)); }
  }

  /** A text without an opening marker is returned as it is, closed or not. */
  lemma {:induction false} TextWithoutSlotIsKept(s: string, opening: string, closing: string)
    requires opening != "" && forall i :: 0 <= i ==> !At(s, opening, i)
    ensures Collapsed(s, opening, closing) == Some(s)
  {
    NoOccurrenceNoStart(s, opening);
  }

  /** The missing-marker error: raised exactly when there is a slot and no closing marker at or after the last one. */
  lemma {:induction false} RaisesExactly(s: string, opening: string, closing: string)
    requires opening != ""
    ensures Collapsed(s, opening, closing).None? <==>
      var starts := Starts(s, opening, 0);
      starts != [] && forall i :: starts[|starts| - 1] <= i ==> !At(s, closing, i)
  {
    StartsAreOccurrences(s, opening, 0);
    var starts := Starts(s, opening, 0);
    if starts != [] {
      assert At(s, opening, starts[0]) && At(s, opening, starts[|starts| - 1]);
      hide At;
      var found := Find(s, closing, starts[|starts| - 1]);
      if found >= 0 { assert At(s, closing, found); }
    }
  }

  /** A single closed slot leaves the text as it is, whitespace at the ends included. */
  lemma {:induction false} SingleSlotIsKept(s: string, opening: string, closing: string, h: nat)
    requires opening != "" && Headed(s, opening, h) && Collapsed(s, opening, closing).Some?
    ensures Collapsed(s, opening, closing) == Some(s)
  {
    HeadedHasOneStart(s, opening, h);
  }

  lemma {:induction false} StartsOfTwo(s: string, opening: string, i: nat, j: nat)
    requires opening != "" && At(s, opening, i) && At(s, opening, j) && i + |opening| <= j
    requires forall k :: 0 <= k && k != i && k != j ==> !At(s, opening, k)
    ensures Starts(s, opening, 0) == [i, j]
  {
    hide At;
    FindIs(s, opening, 0, i);
    FindIs(s, opening, i + |opening|, j);
    FindNothing(s, opening, j + |opening|);
    assert Starts(s, opening, j + |opening|) == [];
    assert Starts(s, opening, i + |opening|) == [j] + [];
    assert Starts(s, opening, 0) == [i] + [j];
  }

  /** Two slots, at `i` and at `j`, and no other: what is in between disappears, and exactly one blank line
      separates the cleaned text before the first slot from the last slot. */
  lemma {:induction false} TwoSlotsCollapse(s: string, opening: string, closing: string, i: nat, j: nat, close: nat)
    requires Marker(opening) && Marker(closing)
    requires At(s, opening, i) && At(s, opening, j) && i + |opening| <= j
    requires forall k :: 0 <= k && k != i && k != j ==> !At(s, opening, k)
    requires j <= close && At(s, closing, close)
    ensures i <= |s| && j <= |s|
    ensures Collapsed(s, opening, closing) ==
      Some(if Strip(s[..i]) == "" then RStrip(s[j..]) else Strip(s[..i]) + "\n\n" + RStrip(s[j..]))
  {
    hide *;
    MarkersAreNotEmpty(opening, closing);
    StartsOfTwo(s, opening, i, j);
    RaisesExactly(s, opening, closing);
    CollapsedKeepsLastSlot(s, opening, closing);
    HeadIsStripped(s[..i]);
    assert "" + RStrip(s[j..]) == RStrip(s[j..]);
  }

  lemma {:induction false} MarkersAreNotEmpty(opening: string, closing: string)
    requires Marker(opening) && Marker(closing)
    ensures opening != "" && closing != ""
  {}

  lemma {:induction false} HeadIsStripped(prefix: string)
    ensures Head(prefix) == if Strip(prefix) == "" then "" else Strip(prefix) + "\n\n"
  {
    StripsCommute(prefix);
  }

  lemma {:induction false} RStripNothing(s: string)
    requires forall i :: 0 <= i < |s| ==> IsSpace(s[i])
    ensures RStrip(s) == ""
  {
    hide IsSpace;
    RStripIs(s, 0);
    assert s[..0] == "";
  }

  /** The two strips may be done in either order. */
  lemma {:induction false} StripsCommute(s: string)
    ensures Strip(s) == LStrip(RStrip(s))
    ensures RStrip(s) == "" <==> Strip(s) == ""
  {
    hide IsSpace;
    var l := LStrip(s);
    var a := |s| - |l|;
    if l == "" {
      RStripNothing(s);
    } else {
      hide LStrip, RStrip;
      RStripNonEmpty(l);
      assert s == s[..a] + l;
      RStripOfConcat(s[..a], l);
      var r := RStrip(s);
      assert r == s[..a] + RStrip(l) && r[a..] == RStrip(l);
      forall i | 0 <= i < a ensures IsSpace(r[i]) { assert r[i] == s[i]; }
      LStripIs(r, a);
    }
  }
}
