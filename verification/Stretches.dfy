/**
 Cutting a text at gaps: the stretches between them, where they are, and that taking them off
 the front one after the other finds all of them.
 */
module Stretches {
  /** A stretch as long as it can be without a gap. */
  ghost predicate IsStretch(s: string, gap: char -> bool, a: nat, b: nat) {
    && a < b <= |s| && (forall i | a <= i < b :: !gap(s[i]))
    && (a > 0 ==> gap(s[a - 1])) && (b < |s| ==> gap(s[b]))
  }

  ghost predicate Within(spans: seq<(nat, nat)>, i: nat) {
    exists k :: 0 <= k < |spans| && spans[k].0 <= i < spans[k].1
  }

  /** `parts` are the stretches of `s`, in order, and nothing outside of gaps is left over. */
  ghost predicate Covers(s: string, gap: char -> bool, spans: seq<(nat, nat)>, parts: seq<string>) {
    && |spans| == |parts|
    && (forall k | 0 <= k < |spans| :: IsPart(s, gap, spans[k], parts[k]))
    && (forall k, l | 0 <= k < l < |spans| :: spans[k].1 <= spans[l].0)
    && (forall i: nat | i < |s| && !gap(s[i]) :: Within(spans, i))
  }

  ghost predicate IsPart(s: string, gap: char -> bool, span: (nat, nat), part: string) {
    IsStretch(s, gap, span.0, span.1) && part == s[span.0..span.1]
  }

  /** Every stretch is one of the parts. */
  lemma StretchIsPart(s: string, gap: char -> bool, spans: seq<(nat, nat)>, parts: seq<string>, a: nat, b: nat)
    requires Covers(s, gap, spans, parts) && IsStretch(s, gap, a, b)
    ensures s[a..b] in parts
  {
    assert Within(spans, a);
    var k :| 0 <= k < |spans| && spans[k].0 <= a < spans[k].1;
    assert IsPart(s, gap, spans[k], parts[k]);
    assert spans[k] == (a, b) && parts[k] == s[a..b];
  }

  /** Where the stretch that includes `i` ends. */
  function StretchEnd(s: string, gap: char -> bool, i: nat): (e: nat)
    requires i <= |s|
    ensures i <= e <= |s| && (forall k | i <= k < e :: !gap(s[k])) && (e < |s| ==> gap(s[e]))
    decreases |s| - i
  {
    if i == |s| || gap(s[i]) then i else StretchEnd(s, gap, i + 1)
  }

  /** The stretches from `i` on, where no stretch goes on from before. */
  function Spans(s: string, gap: char -> bool, i: nat): seq<(nat, nat)>
    requires i <= |s|
    decreases |s| - i
  {
    if i == |s| then []
    else if gap(s[i]) then Spans(s, gap, i + 1)
    else [(i, StretchEnd(s, gap, i))] + Spans(s, gap, StretchEnd(s, gap, i))
  }

  ghost predicate IsBoundary(s: string, gap: char -> bool, i: nat) {
    i <= |s| && (i == 0 || i == |s| || gap(s[i - 1]) || gap(s[i]))
  }

  lemma {:induction false} SpansAreStretches(s: string, gap: char -> bool, i: nat, k: nat)
    requires IsBoundary(s, gap, i) && k < |Spans(s, gap, i)|
    ensures var span := Spans(s, gap, i)[k]; IsStretch(s, gap, span.0, span.1) && i <= span.0
    decreases |s| - i
  {
    if gap(s[i]) {
      SpansAreStretches(s, gap, i + 1, k);
    } else if k > 0 {
      SpansAreStretches(s, gap, StretchEnd(s, gap, i), k - 1);
    }
  }

  lemma {:induction false} SpansAreOrdered(s: string, gap: char -> bool, i: nat, k: nat, l: nat)
    requires IsBoundary(s, gap, i) && k < l < |Spans(s, gap, i)|
    ensures Spans(s, gap, i)[k].1 <= Spans(s, gap, i)[l].0
    decreases |s| - i
  {
    if gap(s[i]) {
      SpansAreOrdered(s, gap, i + 1, k, l);
    } else if k > 0 {
      SpansAreOrdered(s, gap, StretchEnd(s, gap, i), k - 1, l - 1);
    } else {
      SpansAreStretches(s, gap, StretchEnd(s, gap, i), l - 1);
    }
  }

  lemma {:induction false} SpansLeaveNothing(s: string, gap: char -> bool, i: nat, j: nat) returns (k: nat)
    requires IsBoundary(s, gap, i) && i <= j < |s| && !gap(s[j])
    ensures k < |Spans(s, gap, i)| && Spans(s, gap, i)[k].0 <= j < Spans(s, gap, i)[k].1
    decreases |s| - i
  {
    if gap(s[i]) {
      k := SpansLeaveNothing(s, gap, i + 1, j);
    } else {
      var e := StretchEnd(s, gap, i);
      k := 0;
      if j >= e {
        k := SpansLeaveNothing(s, gap, e, j);
        k := k + 1;
      }
    }
  }

  function Cut(s: string, span: (nat, nat)): string {
    if span.0 <= span.1 <= |s| then s[span.0..span.1] else ""
  }

  /** The stretches of a text. */
  function Parts(s: string, spans: seq<(nat, nat)>): seq<string> {
    if spans == [] then [] else [Cut(s, spans[0])] + Parts(s, spans[1..])
  }

  lemma {:induction false} PartsIs(s: string, spans: seq<(nat, nat)>, k: nat)
    requires k < |spans|
    ensures |Parts(s, spans)| == |spans| && Parts(s, spans)[k] == Cut(s, spans[k])
  {
    if |spans| > 1 {
      PartsIs(s, spans[1..], if k > 0 then k - 1 else 0);
    }
  }

  lemma SpansCover(s: string, gap: char -> bool)
    ensures Covers(s, gap, Spans(s, gap, 0), Parts(s, Spans(s, gap, 0)))
  {
    var spans := Spans(s, gap, 0);
    forall k | 0 <= k < |spans|
      ensures |Parts(s, spans)| == |spans| && IsPart(s, gap, spans[k], Parts(s, spans)[k])
    {
      SpansAreStretches(s, gap, 0, k);
      PartsIs(s, spans, k);
    }
    forall k, l | 0 <= k < l < |spans|
      ensures spans[k].1 <= spans[l].0
    {
      SpansAreOrdered(s, gap, 0, k, l);
    }
    forall i: nat | i < |s| && !gap(s[i])
      ensures Within(spans, i)
    {
      var k := SpansLeaveNothing(s, gap, 0, i);
    }
  }

  function StretchLength(s: string, gap: char -> bool): (n: nat)
    ensures n <= |s|
  {
    if s == "" || gap(s[0]) then 0 else 1 + StretchLength(s[1..], gap)
  }

  /** The stretches of a text, taken off its front. */
  function StretchesOf(s: string, gap: char -> bool): seq<string>
    decreases |s|
  {
    if s == "" then []
    else if gap(s[0]) then StretchesOf(s[1..], gap)
    else [s[..StretchLength(s, gap)]] + StretchesOf(s[StretchLength(s, gap)..], gap)
  }

  lemma {:induction false} LengthIsEnd(s: string, gap: char -> bool, i: nat)
    requires i <= |s|
    ensures i + StretchLength(s[i..], gap) == StretchEnd(s, gap, i)
    decreases |s| - i
  {
    if i < |s| {
      assert s[i..][0] == s[i] && s[i..][1..] == s[i + 1..];
      if !gap(s[i]) {
        LengthIsEnd(s, gap, i + 1);
      }
    }
  }

  lemma PartsMore(s: string, span: (nat, nat), spans: seq<(nat, nat)>)
    ensures Parts(s, [span] + spans) == [Cut(s, span)] + Parts(s, spans)
  {
    assert ([span] + spans)[1..] == spans;
  }

  lemma {:induction false} StretchesAreParts(s: string, gap: char -> bool, i: nat)
    requires i <= |s|
    ensures StretchesOf(s[i..], gap) == Parts(s, Spans(s, gap, i))
    decreases |s| - i
  {
    if i < |s| {
      var t, e := s[i..], StretchEnd(s, gap, i);
      assert t[0] == s[i] && t[1..] == s[i + 1..];
      if gap(s[i]) {
        StretchesAreParts(s, gap, i + 1);
      } else {
        LengthIsEnd(s, gap, i);
        assert t[..e - i] == s[i..e] && t[e - i..] == s[e..];
        StretchesAreParts(s, gap, e);
        PartsMore(s, (i, e), Spans(s, gap, e));
      }
    }
  }

  /** Taking stretches off the front finds all of them, in order. */
  lemma StretchesCover(s: string, gap: char -> bool)
    ensures Covers(s, gap, Spans(s, gap, 0), StretchesOf(s, gap))
  {
    SpansCover(s, gap);
    StretchesAreParts(s, gap, 0);
    assert s[0..] == s;
  }
}
