/** The edit distance between two texts (DisCrawler/DOMAttUtil/distance.cpp). */
module EditDistance {

  function Min(a: nat, b: nat): nat { if a < b then a else b }

  function ButLast(s: string, k: nat): string
    requires k <= |s|
  {
    s[..|s| - k]
  }

  function Last(s: string, k: nat): char
    requires 0 < k <= |s|
  {
    s[|s| - k]
  }

  function Cost(a: char, b: char): nat { if a == b then 0 else 1 }

  // ------------------------------------------------ edit scripts

  /** One step takes characters off the source and puts characters on the target.  A swap takes the
      pair (a, b) to a pair (c, d) read crosswise. */
  datatype Step =
    | Delete(a: char)
    | Insert(c: char)
    | Substitute(a: char, c: char)
    | Swap(a: char, b: char, c: char, d: char)
  {
    function From(): string {
      match this
      case Delete(a) => [a]
      case Insert(_) => []
      case Substitute(a, _) => [a]
      case Swap(a, b, _, _) => [a, b]
    }

    function To(): string {
      match this
      case Delete(_) => []
      case Insert(c) => [c]
      case Substitute(_, c) => [c]
      case Swap(_, _, c, d) => [c, d]
    }

    function Price(): nat {
      match this
      case Delete(_) => 1
      case Insert(_) => 1
      case Substitute(a, c) => Cost(a, c)
      case Swap(a, b, c, d) => 1 + Cost(a, d) + Cost(b, c)
    }
  }

  function Source(script: seq<Step>): string {
    if script == [] then [] else Source(script[..|script| - 1]) + script[|script| - 1].From()
  }

  function Target(script: seq<Step>): string {
    if script == [] then [] else Target(script[..|script| - 1]) + script[|script| - 1].To()
  }

  function Price(script: seq<Step>): nat {
    if script == [] then 0 else Price(script[..|script| - 1]) + script[|script| - 1].Price()
  }

  /** The guard i > 2 && j > 2: something of both texts precedes every swap. */
  predicate Guarded(script: seq<Step>) {
    forall k | 0 <= k < |script| && script[k].Swap? :: Source(script[..k]) != [] && Target(script[..k]) != []
  }

  predicate Edits(script: seq<Step>, s: string, t: string) {
    Source(script) == s && Target(script) == t && Guarded(script)
  }

  // ------------------------------------------------ the recurrence

  /** Step 6: the best of a deletion, an insertion and a substitution. */
  function Cell(above: nat, left: nat, diag: nat, a: char, c: char): nat {
    Min(above + 1, Min(left + 1, diag + Cost(a, c)))
  }

  /** Step 6A: the swap of the characters before the last pair and the last pair. */
  function Trans(far: nat, a: char, b: char, c: char, d: char): nat {
    far + 1 + Cost(a, d) + Cost(b, c)
  }

  function Dist(s: string, t: string): nat
    decreases |s| + |t|
  {
    if s == [] then |t|
    else if t == [] then |s|
    else
      var cell := Cell(Dist(ButLast(s, 1), t), Dist(s, ButLast(t, 1)), Dist(ButLast(s, 1), ButLast(t, 1)),
                       Last(s, 1), Last(t, 1));
      if |s| > 2 && |t| > 2 then
        Min(cell, Trans(Dist(ButLast(s, 2), ButLast(t, 2)), Last(s, 2), Last(s, 1), Last(t, 2), Last(t, 1)))
      else cell
  }

  lemma Borders(s: string, t: string)
    ensures s == [] ==> Dist(s, t) == |t|
    ensures t == [] ==> Dist(s, t) == |s|
  {
  }

  lemma Unfolded(s: string, t: string)
    requires s != [] && t != []
    ensures var cell := Cell(Dist(ButLast(s, 1), t), Dist(s, ButLast(t, 1)), Dist(ButLast(s, 1), ButLast(t, 1)),
                             Last(s, 1), Last(t, 1));
      Dist(s, t) ==
      if |s| > 2 && |t| > 2 then
        Min(cell, Trans(Dist(ButLast(s, 2), ButLast(t, 2)), Last(s, 2), Last(s, 1), Last(t, 2), Last(t, 1)))
      else cell
  {
    hide Min, Cell, Trans;
  }

  // ------------------------------------------------ the distance is the least price

  lemma {:induction false} NoScriptIsCheaper(script: seq<Step>)
    requires Guarded(script)
    ensures Dist(Source(script), Target(script)) <= Price(script)
    decreases |script|
  {
    if script != [] {
      var init, last := script[..|script| - 1], script[|script| - 1];
      assert Guarded(init) by {
        forall k | 0 <= k < |init| && init[k].Swap? ensures Source(init[..k]) != [] && Target(init[..k]) != [] {
          assert init[..k] == script[..k];
        }
      }
      NoScriptIsCheaper(init);
      OneStepMore(Source(init), Target(init), last);
    }
  }

  lemma OneStepMore(s: string, t: string, step: Step)
    requires step.Swap? ==> s != [] && t != []
    ensures Dist(s + step.From(), t + step.To()) <= Dist(s, t) + step.Price()
  {
    var s', t' := s + step.From(), t + step.To();
    assert s + [] == s && t + [] == t;
    if step.Delete? {
      assert ButLast(s', 1) == s;
    } else if step.Insert? {
      assert ButLast(t', 1) == t;
    } else if step.Substitute? {
      assert ButLast(s', 1) == s && ButLast(t', 1) == t;
    } else {
      assert ButLast(s', 2) == s && ButLast(t', 2) == t;
    }
  }

  /** A step at the end of a script. */
  lemma Extended(script: seq<Step>, s: string, t: string, step: Step)
    requires Edits(script, s, t)
    requires step.Swap? ==> s != [] && t != []
    ensures Edits(script + [step], s + step.From(), t + step.To())
    ensures Price(script + [step]) == Price(script) + step.Price()
  {
    var longer := script + [step];
    assert longer[..|script|] == script;
    forall k | 0 <= k < |longer| && longer[k].Swap? ensures Source(longer[..k]) != [] && Target(longer[..k]) != [] {
      assert longer[..k] == script[..k];
    }
  }

  lemma Split(s: string)
    ensures ButLast(s, 0) == s && ButLast(s, 0) + [] == s
    ensures |s| > 0 ==> ButLast(s, 1) + [Last(s, 1)] == s
    ensures |s| > 1 ==> ButLast(s, 2) + [Last(s, 2), Last(s, 1)] == s
  {
  }

  /** The last step of a script that reaches the distance. */
  lemma LastStep(s: string, t: string) returns (step: Step)
    requires s != [] || t != []
    ensures 0 < |step.From()| + |step.To()| && |step.From()| <= |s| && |step.To()| <= |t|
    ensures ButLast(s, |step.From()|) + step.From() == s && ButLast(t, |step.To()|) + step.To() == t
    ensures step.Swap? ==> |s| > 2 && |t| > 2
    ensures Dist(ButLast(s, |step.From()|), ButLast(t, |step.To()|)) + step.Price() == Dist(s, t)
  {
    hide Dist, ButLast, Last, Cost;
    Split(s);
    Split(t);
    Borders(s, t);
    if s == [] || t == [] {
      step := if t == [] then Delete(Last(s, 1)) else Insert(Last(t, 1));
      Borders(ButLast(s, |step.From()|), ButLast(t, |step.To()|));
      assert |ButLast(s, |step.From()|)| == |s| - |step.From()|;
    } else {
      Unfolded(s, t);
      if Dist(s, t) == Dist(ButLast(s, 1), t) + 1 {
        step := Delete(Last(s, 1));
      } else if Dist(s, t) == Dist(s, ButLast(t, 1)) + 1 {
        step := Insert(Last(t, 1));
      } else if Dist(s, t) == Dist(ButLast(s, 1), ButLast(t, 1)) + Cost(Last(s, 1), Last(t, 1)) {
        step := Substitute(Last(s, 1), Last(t, 1));
      } else {
        step := Swap(Last(s, 2), Last(s, 1), Last(t, 2), Last(t, 1));
      }
    }
  }

  /** Such a script. */
  lemma {:induction false} BestScript(s: string, t: string) returns (script: seq<Step>)
    ensures Edits(script, s, t) && Price(script) == Dist(s, t)
    decreases |s| + |t|
  {
    hide Dist;
    if s == [] && t == [] {
      Borders(s, t);
      script := [];
    } else {
      var step := LastStep(s, t);
      var s', t' := ButLast(s, |step.From()|), ButLast(t, |step.To()|);
      var init := BestScript(s', t');
      Extended(init, s', t', step);
      script := init + [step];
    }
  }

  /** The distance is the least price of a script: some script has it, and none is cheaper. */
  lemma DistIsLeastPrice(s: string, t: string)
    ensures exists script :: Edits(script, s, t) && Price(script) == Dist(s, t)
    ensures forall script | Edits(script, s, t) :: Dist(s, t) <= Price(script)
  {
    var best := BestScript(s, t);
    forall script | Edits(script, s, t) ensures Dist(s, t) <= Price(script) {
      NoScriptIsCheaper(script);
    }
  }

  // ------------------------------------------------ plain edits

  /** If it is a swap, the step really exchanges two characters. */
  predicate IsPlain(step: Step) { step.Swap? ==> step.a == step.d && step.b == step.c }

  /** A script of such steps from s to t. */
  predicate PlainlyEdits(script: seq<Step>, s: string, t: string) {
    Edits(script, s, t) && forall k | 0 <= k < |script| :: IsPlain(script[k])
  }

  /** How many of its steps are edits: all but substitutions of a character by itself. */
  function Changes(script: seq<Step>): nat {
    if script == [] then 0
    else
      var last := script[|script| - 1];
      Changes(script[..|script| - 1]) + if last.Substitute? && last.a == last.c then 0 else 1
  }

  lemma {:induction false} PlainPrice(script: seq<Step>)
    requires forall k | 0 <= k < |script| :: IsPlain(script[k])
    ensures Price(script) == Changes(script)
    decreases |script|
  {
    if script != [] {
      PlainPrice(script[..|script| - 1]);
    }
  }

  lemma PlainlyExtended(script: seq<Step>, s: string, t: string, step: Step)
    requires PlainlyEdits(script, s, t) && IsPlain(step) && (step.Swap? ==> s != [] && t != [])
    ensures PlainlyEdits(script + [step], s + step.From(), t + step.To())
    ensures Price(script + [step]) == Price(script) + step.Price()
  {
    hide Edits, Price;
    Extended(script, s, t, step);
  }

  /** Two substitutions are never dearer than a swap that does not really exchange. */
  lemma SubstitutedTwice(script: seq<Step>, s: string, t: string, step: Step) returns (longer: seq<Step>)
    requires PlainlyEdits(script, s, t) && step.Swap? && !IsPlain(step)
    ensures PlainlyEdits(longer, s + step.From(), t + step.To()) && Price(longer) <= Price(script) + step.Price()
  {
    hide Price, Edits;
    var first, second := Substitute(step.a, step.c), Substitute(step.b, step.d);
    PlainlyExtended(script, s, t, first);
    PlainlyExtended(script + [first], s + [step.a], t + [step.c], second);
    longer := script + [first] + [second];
    assert s + [step.a] + [step.b] == s + step.From() && t + [step.c] + [step.d] == t + step.To();
  }

  lemma {:induction false} BestPlainScript(s: string, t: string) returns (script: seq<Step>)
    ensures PlainlyEdits(script, s, t) && Price(script) <= Dist(s, t)
    decreases |s| + |t|
  {
    hide Dist;
    if s == [] && t == [] {
      Borders(s, t);
      script := [];
    } else {
      var step := LastStep(s, t);
      var s', t' := ButLast(s, |step.From()|), ButLast(t, |step.To()|);
      var init := BestPlainScript(s', t');
      if IsPlain(step) {
        PlainlyExtended(init, s', t', step);
        script := init + [step];
      } else {
        script := SubstitutedTwice(init, s', t', step);
      }
    }
  }

  /** So the distance is the least number of insertions, deletions, substitutions and exchanges of neighbours
      (none at the front) that lead from source to target. */
  lemma DistIsLeastNumberOfEdits(s: string, t: string)
    ensures exists script :: PlainlyEdits(script, s, t) && Changes(script) == Dist(s, t)
    ensures forall script | PlainlyEdits(script, s, t) :: Dist(s, t) <= Changes(script)
  {
    hide Dist, Edits, Price, Changes, IsPlain;
    forall script | PlainlyEdits(script, s, t)
      ensures Dist(s, t) <= Changes(script) == Price(script)
    {
      PlainPrice(script);
      DistIsLeastPrice(s, t);
    }
    var best := BestPlainScript(s, t);
  }

  // ------------------------------------------------ what it says about the texts

  lemma {:induction false} Symmetric(s: string, t: string)
    ensures Dist(s, t) == Dist(t, s)
    decreases |s| + |t|
  {
    if s != [] && t != [] {
      Symmetric(ButLast(s, 1), t);
      Symmetric(s, ButLast(t, 1));
      Symmetric(ButLast(s, 1), ButLast(t, 1));
      if |s| > 2 && |t| > 2 {
        Symmetric(ButLast(s, 2), ButLast(t, 2));
      }
    }
  }

  /** Between the difference of the lengths and the longer length. */
  lemma {:induction false} Bounds(s: string, t: string)
    ensures Dist(s, t) >= |s| - |t| && Dist(s, t) >= |t| - |s|
    ensures Dist(s, t) <= |s| || Dist(s, t) <= |t|
    decreases |s| + |t|
  {
    hide Dist;
    Borders(s, t);
    if s != [] && t != [] {
      Unfolded(s, t);
      Bounds(ButLast(s, 1), t);
      Bounds(s, ButLast(t, 1));
      Bounds(ButLast(s, 1), ButLast(t, 1));
      if |s| > 2 && |t| > 2 {
        Bounds(ButLast(s, 2), ButLast(t, 2));
      }
    }
  }

  lemma {:induction false} ZeroIffEqual(s: string, t: string)
    ensures Dist(s, t) == 0 <==> s == t
    decreases |s| + |t|
  {
    if s != [] && t != [] {
      ZeroIffEqual(ButLast(s, 1), ButLast(t, 1));
      assert s == ButLast(s, 1) + [Last(s, 1)] && t == ButLast(t, 1) + [Last(t, 1)];
    }
  }

  /** Two exchanged neighbours at the end cost one step if and only if something precedes them: the
      guard excludes a swap of the first two characters. */
  lemma SwappedPair(p: string, a: char, b: char)
    requires a != b
    ensures Dist(p + [a, b], p + [b, a]) == if p == [] then 2 else 1
  {
    var s, t := p + [a, b], p + [b, a];
    assert Last(s, 1) != Last(t, 1);
    ZeroIffEqual(s, t);
    if p == [] {
      assert ButLast(s, 1) == [a] && ButLast(t, 1) == [b];
      Bounds(s, [b]);
      Bounds([a], t);
      ZeroIffEqual([a], [b]);
      assert ButLast([a], 1) == [] && ButLast([b], 1) == [] && ButLast(t, 1) == [b];
      Bounds(s, t);
    } else {
      assert ButLast(s, 2) == p == ButLast(t, 2);
      ZeroIffEqual(p, p);
    }
  }

  // ------------------------------------------------ the matrix

  /** The recurrence in terms of prefixes. */
  lemma Recurrence(s: string, t: string, i: nat, j: nat)
    requires 0 < i <= |s| && 0 < j <= |t|
    ensures var cell := Cell(Dist(s[..i - 1], t[..j]), Dist(s[..i], t[..j - 1]), Dist(s[..i - 1], t[..j - 1]),
                             s[i - 1], t[j - 1]);
      Dist(s[..i], t[..j]) ==
      if i > 2 && j > 2 then
        Min(cell, Trans(Dist(s[..i - 2], t[..j - 2]), s[i - 2], s[i - 1], t[j - 2], t[j - 1]))
      else cell
  {
    hide Dist, Min, Cell, Trans;
    Unfolded(s[..i], t[..j]);
    assert s[..i][..i - 1] == s[..i - 1] && t[..j][..j - 1] == t[..j - 1];
    if i > 2 && j > 2 {
      assert s[..i][..i - 2] == s[..i - 2] && t[..j][..j - 2] == t[..j - 2];
    }
  }

  /** Steps 5 to 6A, for one cell. */
  method NextCell(matrix: array2<int>, source: string, target: string, i: nat, j: nat) returns (cell: int)
    requires matrix.Length0 == |source| + 1 && matrix.Length1 == |target| + 1
    requires 0 < i <= |source| && 0 < j <= |target|
    requires matrix[i - 1, j] == Dist(source[..i - 1], target[..j])
    requires matrix[i, j - 1] == Dist(source[..i], target[..j - 1])
    requires matrix[i - 1, j - 1] == Dist(source[..i - 1], target[..j - 1])
    requires i > 2 && j > 2 ==> matrix[i - 2, j - 2] == Dist(source[..i - 2], target[..j - 2])
    ensures cell == Dist(source[..i], target[..j])
  {
    hide Dist;
    var si, tj := source[i - 1], target[j - 1];
    var cost;
    if si == tj {
      cost := 0;
    } else {
      cost := 1;
    }
    var above, left, diag := matrix[i - 1, j], matrix[i, j - 1], matrix[i - 1, j - 1];
    cell := Min(above + 1, Min(left + 1, diag + cost));
    if i > 2 && j > 2 {
      var trans := matrix[i - 2, j - 2] + 1;
      if source[i - 2] != tj {
        trans := trans + 1;
      }
      if si != target[j - 2] {
        trans := trans + 1;
      }
      if cell > trans {
        cell := trans;
      }
    }
    Recurrence(source, target, i, j);
  }

  /** The computation, from the lengths of source and target to the result. */
  method LD(source: string, target: string) returns (result: int)
    ensures result == Dist(source, target)
  {
    hide Dist;
    var n, m := |source|, |target|;
    if n == 0 {
      Borders(source, target);
      return m;
    }
    if m == 0 {
      Borders(source, target);
      return n;
    }
    var matrix := new int[n + 1, m + 1];
    for i := 0 to n + 1
      invariant forall k | 0 <= k < i :: matrix[k, 0] == k
    {
      matrix[i, 0] := i;
    }
    for j := 0 to m + 1
      invariant forall k | 0 <= k <= n :: matrix[k, 0] == k
      invariant forall k | 0 <= k < j :: matrix[0, k] == k
    {
      matrix[0, j] := j;
    }
    forall k | 0 <= k <= n ensures matrix[k, 0] == Dist(source[..k], target[..0]) {
      Borders(source[..k], target[..0]);
    }
    forall k | 0 <= k <= m ensures matrix[0, k] == Dist(source[..0], target[..k]) {
      Borders(source[..0], target[..k]);
    }
    for i := 1 to n + 1
      invariant forall k | 0 <= k <= n :: matrix[k, 0] == Dist(source[..k], target[..0])
      invariant forall k, l | 0 <= k < i && 0 <= l <= m :: matrix[k, l] == Dist(source[..k], target[..l])
    {
      for j := 1 to m + 1
        invariant forall k | 0 <= k <= n :: matrix[k, 0] == Dist(source[..k], target[..0])
        invariant forall k, l | 0 <= k < i && 0 <= l <= m :: matrix[k, l] == Dist(source[..k], target[..l])
        invariant forall l | 0 <= l < j :: matrix[i, l] == Dist(source[..i], target[..l])
      {
        var cell := NextCell(matrix, source, target, i, j);
        matrix[i, j] := cell;
      }
    }
    assert source[..n] == source && target[..m] == target;
    return matrix[n, m];
  }
}
