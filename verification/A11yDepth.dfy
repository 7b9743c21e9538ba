/**
 How the two serialisers treat elements below the depth limit: the tree form stops at
 the first one, the line form leaves each of them out and goes on. Both are `Run` on a
 part of the element list, which says exactly when they agree.
 */
module A11yDepth {
  import opened Wrappers
  import opened Strings
  import opened A11yLines

  predicate Deep(maxDepth: int, item: Item) {
    item.indent > 2 * maxDepth
  }

  /** The tree form, on elements in preorder. */
  function TreeRun(f: Format, maxDepth: int, st: Out, items: seq<Item>): Out
    decreases |items|
  {
    if items == [] || st.truncated then st
    else if Deep(maxDepth, items[0]) then st.(truncated := true)
    else TreeRun(f, maxDepth, Record(f, st, items[0]), items[1..])
  }

  /** The line form, on the elements of the lines. */
  function LineRun(f: Format, maxDepth: int, st: Out, items: seq<Item>): Out
    decreases |items|
  {
    if items == [] then st
    else if Deep(maxDepth, items[0]) then LineRun(f, maxDepth, st.(truncated := true), items[1..])
    else if !Fits(f, st, items[0]) then Record(f, st, items[0])
    else LineRun(f, maxDepth, Add(f, st, items[0]), items[1..])
  }

  lemma {:induction false} TreeRunConcat(f: Format, maxDepth: int, st: Out, a: seq<Item>, b: seq<Item>)
    ensures TreeRun(f, maxDepth, st, a + b) == TreeRun(f, maxDepth, TreeRun(f, maxDepth, st, a), b)
    decreases |a|
  {
    if a == [] {
      assert a + b == b;
    } else if !st.truncated && !Deep(maxDepth, a[0]) {
      assert (a + b)[1..] == a[1..] + b;
      TreeRunConcat(f, maxDepth, Record(f, st, a[0]), a[1..], b);
    }
  }

  // --- Both forms as runs ---

  /** How many elements come before the first one below the limit. */
  function ShallowPrefix(maxDepth: int, items: seq<Item>): (p: nat)
    ensures p <= |items|
    ensures forall i | 0 <= i < p :: !Deep(maxDepth, items[i])
    ensures p < |items| ==> Deep(maxDepth, items[p])
  {
    if items == [] || Deep(maxDepth, items[0]) then 0 else 1 + ShallowPrefix(maxDepth, items[1..])
  }

  /** The elements within the limit. */
  function Shallow(maxDepth: int, items: seq<Item>): (r: seq<Item>)
    ensures |r| <= |items|
    ensures |r| == |items| <==> ShallowPrefix(maxDepth, items) == |items|
  {
    if items == [] then []
    else if Deep(maxDepth, items[0]) then Shallow(maxDepth, items[1..])
    else [items[0]] + Shallow(maxDepth, items[1..])
  }

  lemma {:induction false} TreeRunIsRun(f: Format, maxDepth: int, st: Out, items: seq<Item>)
    requires !st.truncated
    ensures var p := ShallowPrefix(maxDepth, items);
            var r := Run(f, st, items[..p]);
            TreeRun(f, maxDepth, st, items) == r.(truncated := r.truncated || p < |items|)
    decreases |items|
  {
    if items != [] && !Deep(maxDepth, items[0]) {
      var p := ShallowPrefix(maxDepth, items);
      assert items[..p][1..] == items[1..][..p - 1];
      if Fits(f, st, items[0]) {
        TreeRunIsRun(f, maxDepth, Add(f, st, items[0]), items[1..]);
      } else {
        assert Record(f, st, items[0]).truncated;
      }
    }
  }

  lemma StepIgnoresFlag(f: Format, st: Out, item: Item)
    ensures var cut := st.(truncated := true);
            && LineFor(f, cut, item) == LineFor(f, st, item)
            && Fits(f, cut, item) == Fits(f, st, item)
            && Add(f, cut, item) == Add(f, st, item).(truncated := true)
            && Record(f, cut, item) == Record(f, st, item).(truncated := true)
  {
    assert Register(f, st.(truncated := true), item) == Register(f, st, item).(truncated := true);
  }

  lemma {:induction false} RunIgnoresFlag(f: Format, st: Out, items: seq<Item>)
    ensures Run(f, st.(truncated := true), items) == Run(f, st, items).(truncated := true)
    decreases |items|
  {
    if items != [] {
      StepIgnoresFlag(f, st, items[0]);
      if Fits(f, st, items[0]) {
        RunIgnoresFlag(f, Add(f, st, items[0]), items[1..]);
      }
    }
  }

  lemma {:induction false} LineRunIsRun(f: Format, maxDepth: int, st: Out, items: seq<Item>)
    ensures var r := Run(f, st, Shallow(maxDepth, items));
            LineRun(f, maxDepth, st, items) == r.(truncated := r.truncated || |Shallow(maxDepth, items)| < |items|)
    decreases |items|
  {
    if items != [] {
      if Deep(maxDepth, items[0]) {
        LineRunIsRun(f, maxDepth, st.(truncated := true), items[1..]);
        RunIgnoresFlag(f, st, Shallow(maxDepth, items[1..]));
        RunKeepsFlag(f, st.(truncated := true), Shallow(maxDepth, items[1..]));
      } else {
        assert Shallow(maxDepth, items)[1..] == Shallow(maxDepth, items[1..]);
        if Fits(f, st, items[0]) {
          LineRunIsRun(f, maxDepth, Add(f, st, items[0]), items[1..]);
        } else {
          assert Record(f, st, items[0]).truncated;
        }
      }
    }
  }

  lemma {:induction false} RunKeepsFlag(f: Format, st: Out, items: seq<Item>)
    requires st.truncated
    ensures Run(f, st, items).truncated
    decreases |items|
  {
    if items != [] && Fits(f, st, items[0]) {
      RunKeepsFlag(f, Add(f, st, items[0]), items[1..]);
    }
  }

  // --- A prefix of the elements is numbered like the whole ---

  lemma {:induction false} PrefixCounts(f: Format, items: seq<Item>, p: nat, i: nat, role: string, name: string)
    requires i <= p <= |items|
    ensures Interactives(f, items[..p], i) == Interactives(f, items, i)
    ensures Occurrences(items[..p], i, role, name) == Occurrences(items, i, role, name)
  {
    if i > 0 {
      PrefixCounts(f, items, p, i - 1, role, name);
    }
  }

  lemma {:induction false} PrefixCost(f: Format, items: seq<Item>, p: nat, i: nat)
    requires i <= p <= |items|
    ensures Cost(f, items[..p], i) == Cost(f, items, i)
    ensures Lines(f, items[..p], i) == Lines(f, items, i)
  {
    forall j | 0 <= j < i
      ensures LineAt(f, items[..p], j) == LineAt(f, items, j)
    {
      PrefixCounts(f, items, p, j, "", "");
    }
    if i > 0 {
      PrefixCost(f, items, p, i - 1);
    }
  }

  lemma {:induction false} PrefixRefs(f: Format, items: seq<Item>, p: nat, i: nat)
    requires i <= p <= |items|
    ensures Refs(f, items[..p], i) == Refs(f, items, i)
  {
    if i > 0 {
      PrefixCounts(f, items, p, i - 1, items[i - 1].role, items[i - 1].name);
      PrefixRefs(f, items, p, i - 1);
    }
  }

  /** The first `k` elements are within the depth limit and their lines within the budget. */
  ghost predicate Emittable(f: Format, maxDepth: int, items: seq<Item>, k: nat) {
    && Affordable(f, items, k)
    && forall i | 0 <= i < k :: !Deep(maxDepth, items[i])
  }

  /** The early-exit traversal keeps the longest prefix, in preorder, of elements within
      the depth limit whose lines fit, and reports a cut exactly when an element is missing. */
  lemma TreeKeepsLongestPrefix(f: Format, maxDepth: int, items: seq<Item>)
    requires Separable(f)
    ensures var r := TreeRun(f, maxDepth, INIT, items);
            && Emittable(f, maxDepth, items, |r.lines|)
            && (forall k: nat :: Emittable(f, maxDepth, items, k) ==> k <= |r.lines|)
            && r.lines == Lines(f, items, |r.lines|)
            && r.charCount == Cost(f, items, |r.lines|)
            && (r.truncated <==> |r.lines| < |items|)
  {
    var p := ShallowPrefix(maxDepth, items);
    TreeRunIsRun(f, maxDepth, INIT, items);
    RunKeepsLongestPrefix(f, items[..p]);
    var n := |Run(f, INIT, items[..p]).lines|;
    PrefixCost(f, items, p, n);
    forall k: nat | Emittable(f, maxDepth, items, k)
      ensures k <= n
    {
      assert k <= p;
      PrefixCost(f, items, p, k);
      assert Affordable(f, items[..p], k);
    }
  }

  // --- When the two forms agree ---

  /** The first element after the first deep one that is within the limit again. */
  function Resume(maxDepth: int, items: seq<Item>, i: nat): (q: nat)
    requires i <= |items|
    ensures i <= q <= |items|
    ensures forall j | i <= j < q :: Deep(maxDepth, items[j])
    ensures q < |items| ==> !Deep(maxDepth, items[q])
    decreases |items| - i
  {
    if i == |items| || !Deep(maxDepth, items[i]) then i else Resume(maxDepth, items, i + 1)
  }

  /** Skipping deep elements makes no difference: nothing within the limit follows the first
      deep element, or the lines before it use up the budget, or what follows next neither
      fits nor gets a ref. */
  predicate DepthIrrelevant(f: Format, maxDepth: int, items: seq<Item>) {
    var p := ShallowPrefix(maxDepth, items);
    var q := Resume(maxDepth, items, p);
    || q == |items|
    || Cost(f, items, p) >= f.maxChars
    || (!IsInteractive(f, items[q]) && Cost(f, items, p) + Units(f.line(items[q], None)) + 1 > f.maxChars)
  }

  lemma {:induction false} LineRunSkips(f: Format, maxDepth: int, st: Out, items: seq<Item>, i: nat)
    requires i <= |items| && st.truncated
    ensures LineRun(f, maxDepth, st, items[i..]) == LineRun(f, maxDepth, st, items[Resume(maxDepth, items, i)..])
    decreases |items| - i
  {
    if i < |items| && Deep(maxDepth, items[i]) {
      assert items[i..][1..] == items[i + 1..];
      LineRunSkips(f, maxDepth, st, items, i + 1);
    }
  }

  lemma {:induction false} LineRunShallow(f: Format, maxDepth: int, st: Out, a: seq<Item>, b: seq<Item>)
    requires !st.truncated
    requires forall i | 0 <= i < |a| :: !Deep(maxDepth, a[i])
    ensures var r := Run(f, st, a);
            LineRun(f, maxDepth, st, a + b) == if r.truncated then r else LineRun(f, maxDepth, r, b)
    decreases |a|
  {
    if a == [] {
      assert a + b == b;
    } else {
      assert (a + b)[1..] == a[1..] + b;
      if Fits(f, st, a[0]) {
        LineRunShallow(f, maxDepth, Add(f, st, a[0]), a[1..], b);
      }
    }
  }

  lemma {:induction false} LineRunGrows(f: Format, maxDepth: int, st: Out, items: seq<Item>)
    ensures var r := LineRun(f, maxDepth, st, items);
            st.lines <= r.lines && |r.refs| >= |st.refs|
    decreases |items|
  {
    if items != [] {
      if Deep(maxDepth, items[0]) {
        LineRunGrows(f, maxDepth, st.(truncated := true), items[1..]);
      } else if Fits(f, st, items[0]) {
        LineRunGrows(f, maxDepth, Add(f, st, items[0]), items[1..]);
      }
    }
  }

  /** A further line makes the text longer. */
  lemma TextGrows(lines: seq<string>, more: seq<string>)
    requires lines != [] && lines < more
    ensures |Join(more, "\n")| > |Join(lines, "\n")|
  {
    assert more == lines + more[|lines|..];
    JoinConcat(lines, more[|lines|..], "\n");
  }

  /** The line form up to where it goes on after deep elements. */
  lemma LineRunResumes(f: Format, maxDepth: int, items: seq<Item>)
    ensures var p := ShallowPrefix(maxDepth, items);
            var r := Run(f, INIT, items[..p]);
            LineRun(f, maxDepth, INIT, items) ==
              if r.truncated || p == |items| then r
              else LineRun(f, maxDepth, r.(truncated := true), items[Resume(maxDepth, items, p)..])
  {
    var p := ShallowPrefix(maxDepth, items);
    var r := Run(f, INIT, items[..p]);
    assert items == items[..p] + items[p..];
    LineRunShallow(f, maxDepth, INIT, items[..p], items[p..]);
    if !r.truncated && p < |items| {
      assert items[p..][1..] == items[p + 1..];
      LineRunSkips(f, maxDepth, r.(truncated := true), items, p + 1);
    }
  }

  /** What the line form returns when it goes on at this element. */
  lemma ResumedRun(f: Format, maxDepth: int, r: Out, items: seq<Item>)
    requires items != [] && items[0].indent > 0 && !Deep(maxDepth, items[0]) && r.lines != []
    ensures Finish(LineRun(f, maxDepth, r.(truncated := true), items)) == Finish(r.(truncated := true)) <==>
            r.charCount >= f.maxChars || (!IsInteractive(f, items[0]) && !Fits(f, r, items[0]))
  {
    var cut := r.(truncated := true);
    assert LineFor(f, cut, items[0]) == LineFor(f, r, items[0]);
    if Fits(f, cut, items[0]) {
      var added := Add(f, cut, items[0]);
      LineRunGrows(f, maxDepth, added, items[1..]);
      TextGrows(r.lines, LineRun(f, maxDepth, added, items[1..]).lines);
    }
  }

  /** What has been used before the first deep element. */
  lemma CostBeforeDeep(f: Format, maxDepth: int, items: seq<Item>)
    requires Separable(f)
    ensures var p := ShallowPrefix(maxDepth, items);
            var r := Run(f, INIT, items[..p]);
            && (r.truncated ==> Cost(f, items, p) > f.maxChars)
            && (!r.truncated ==> r.charCount == Cost(f, items, p) && |r.lines| == p)
  {
    var p := ShallowPrefix(maxDepth, items);
    RunKeepsLongestPrefix(f, items[..p]);
    PrefixCost(f, items, p, p);
    assert Run(f, INIT, items[..p]).truncated ==> !Affordable(f, items[..p], p);
  }

  /** On the elements of a tree, of which exactly the first is at depth zero, the two forms
      return the same exactly when skipping deep elements makes no difference. */
  lemma FormsAgreeIff(f: Format, maxDepth: int, items: seq<Item>)
    requires Separable(f)
    requires items != [] ==> items[0].indent == 0
    requires forall i | 0 < i < |items| :: items[i].indent > 0
    ensures Finish(TreeRun(f, maxDepth, INIT, items)) == Finish(LineRun(f, maxDepth, INIT, items)) <==>
            DepthIrrelevant(f, maxDepth, items)
  {
    var p := ShallowPrefix(maxDepth, items);
    var r := Run(f, INIT, items[..p]);
    var q := Resume(maxDepth, items, p);
    TreeRunIsRun(f, maxDepth, INIT, items);
    LineRunResumes(f, maxDepth, items);
    CostBeforeDeep(f, maxDepth, items);
    if !r.truncated && q < |items| {
      assert p > 0;
      ResumedRun(f, maxDepth, r, items[q..]);
    }
  }

  /** In particular they agree when no element is below the limit. */
  lemma FormsAgreeWithinDepth(f: Format, maxDepth: int, items: seq<Item>)
    requires forall i | 0 <= i < |items| :: !Deep(maxDepth, items[i])
    ensures TreeRun(f, maxDepth, INIT, items) == LineRun(f, maxDepth, INIT, items)
  {
    var p := ShallowPrefix(maxDepth, items);
    assert p == |items| && items[..p] == items;
    TreeRunIsRun(f, maxDepth, INIT, items);
    assert items + [] == items;
    LineRunShallow(f, maxDepth, INIT, items, []);
  }
}
