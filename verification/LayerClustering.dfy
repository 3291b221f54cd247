/** Agglomerative clustering around medoids (DisCrawler/DOMAttUtil/LayerCluster.cpp). */
module LayerClustering {

  const INT_MAX := 0x7fff_ffff

  /** A class: the id of its centre, and the ids of its members. */
  datatype Class = Class(centre: int, members: seq<int>)

  /** The key under which the distance from i to j is remembered. */
  function Key(i: int, j: int): int { i * 10000 + j }

  /** Pairs of these ids have keys of their own. */
  ghost predicate Keyed(ids: set<int>) {
    forall i, j, k, l | i in ids && j in ids && k in ids && l in ids && Key(i, j) == Key(k, l) :: i == k && j == l
  }

  /** Items numbered from 0 on, as the callers number them. */
  ghost function FirstIds(m: nat): (ids: set<int>)
    ensures forall i :: i in ids <==> 0 <= i < m
  {
    if m == 0 then {} else FirstIds(m - 1) + {m - 1}
  }

  /** The keys of the first m ids are distinct if and only if there are at most 10000 of them. */
  lemma FirstIdsAreKeyedIff(m: nat)
    ensures Keyed(FirstIds(m)) <==> m <= 10000
  {
    var ids := FirstIds(m);
    if m <= 10000 {
      forall i, j, k, l | i in ids && j in ids && k in ids && l in ids && Key(i, j) == Key(k, l)
        ensures i == k && j == l
      {
        assert i == Key(i, j) / 10000 && k == Key(k, l) / 10000;
      }
    } else {
      assert 0 in ids && 1 in ids && 10000 in ids && Key(0, 10000) == Key(1, 0);
    }
  }

  // ------------------------------------------------ the items of a list of classes

  ghost function Contents(cs: seq<Class>): multiset<int> {
    if cs == [] then multiset{} else Contents(cs[..|cs| - 1]) + multiset(cs[|cs| - 1].members)
  }

  function Without(cs: seq<Class>, j: nat): seq<Class>
    requires j < |cs|
  {
    cs[..j] + cs[j + 1..]
  }

  lemma ContentsSnoc(cs: seq<Class>, c: Class)
    ensures Contents([]) == multiset{} && Contents(cs + [c]) == Contents(cs) + multiset(c.members)
  {
    assert (cs + [c])[..|cs|] == cs;
  }

  lemma {:induction false} ContentsAppend(a: seq<Class>, b: seq<Class>)
    ensures Contents(a + b) == Contents(a) + Contents(b)
    decreases |b|
  {
    hide Contents;
    if b == [] {
      ContentsSnoc([], Class(0, []));
      assert a + b == a;
    } else {
      var init, last := b[..|b| - 1], b[|b| - 1];
      ContentsAppend(a, init);
      ContentsSnoc(a + init, last);
      ContentsSnoc(init, last);
      assert b == init + [last] && a + b == a + init + [last];
    }
  }

  lemma ContentsAt(cs: seq<Class>, j: nat)
    requires j < |cs|
    ensures Contents(cs) == Contents(Without(cs, j)) + multiset(cs[j].members)
  {
    hide Contents;
    var low, high := cs[..j], cs[j + 1..];
    assert cs == low + [cs[j]] + high;
    ContentsAppend(low + [cs[j]], high);
    ContentsSnoc(low, cs[j]);
    ContentsAppend(low, high);
  }

  lemma WithoutAt(cs: seq<Class>, i: nat, j: nat)
    requires i < |cs| && j < |cs| && i != j
    ensures var i' := if i < j then i else i - 1;
      |Without(cs, j)| == |cs| - 1 && Without(cs, j)[i'] == cs[i]
  {
  }

  /** Two classes of a list, and the rest of it. */
  lemma TwoClasses(cs: seq<Class>, i: nat, j: nat) returns (rest: seq<Class>)
    requires i < |cs| && j < |cs| && i != j
    ensures rest == Without(Without(cs, j), if i < j then i else i - 1)
    ensures Contents(cs) == Contents(rest) + multiset(cs[i].members) + multiset(cs[j].members)
  {
    hide Contents, Without;
    var i' := if i < j then i else i - 1;
    WithoutAt(cs, i, j);
    ContentsAt(cs, j);
    ContentsAt(Without(cs, j), i');
    rest := Without(Without(cs, j), i');
  }

  /** Replacing class i by the union of i and j, and erasing j, loses no item. */
  lemma MergeConserves(cs: seq<Class>, i: nat, j: nat, c: Class)
    requires i < |cs| && j < |cs| && i != j && c.members == cs[i].members + cs[j].members
    ensures Contents(Without(cs[i := c], j)) == Contents(cs)
  {
    hide Contents;
    var i' := if i < j then i else i - 1;
    var ds := Without(cs[i := c], j);
    var rest := TwoClasses(cs, i, j);
    WithoutAt(cs[i := c], i, j);
    ContentsAt(ds, i');
    assert Without(ds, i') == rest;
    assert multiset(c.members) == multiset(cs[i].members) + multiset(cs[j].members);
  }

  lemma UnionFits(cs: seq<Class>, i: nat, j: nat)
    requires i < |cs| && j < |cs| && i != j
    ensures |cs[i].members| + |cs[j].members| <= |Contents(cs)|
  {
    hide Contents, Without;
    var rest := TwoClasses(cs, i, j);
    assert |multiset(cs[i].members)| == |cs[i].members| && |multiset(cs[j].members)| == |cs[j].members|;
  }

  /** Every item is in exactly one class, once. */
  ghost predicate Partition(cs: seq<Class>, ids: set<int>) {
    && (forall k | 0 <= k < |cs| :: forall x | x in cs[k].members :: x in ids && multiset(cs[k].members)[x] == 1)
    && (forall x | x in ids :: exists k | 0 <= k < |cs| :: x in cs[k].members)
    && (forall a, b, x | 0 <= a < |cs| && 0 <= b < |cs| && x in cs[a].members && x in cs[b].members :: a == b)
  }

  lemma {:induction false} ItemHasClass(cs: seq<Class>, x: int)
    requires x in Contents(cs)
    ensures exists k | 0 <= k < |cs| :: x in cs[k].members
    decreases |cs|
  {
    if x in cs[|cs| - 1].members {
    } else {
      ItemHasClass(cs[..|cs| - 1], x);
    }
  }

  lemma InTwoClasses(cs: seq<Class>, a: nat, b: nat, x: int)
    requires a < |cs| && b < |cs| && a != b && x in cs[a].members && x in cs[b].members
    ensures Contents(cs)[x] >= 2
  {
    hide Contents;
    var rest := TwoClasses(cs, a, b);
    assert x in multiset(cs[a].members) && x in multiset(cs[b].members);
  }

  lemma ContentsPartition(cs: seq<Class>, ids: set<int>)
    requires Contents(cs) == multiset(ids)
    ensures Partition(cs, ids)
  {
    hide Contents, Without;
    forall k, x | 0 <= k < |cs| && x in cs[k].members ensures x in ids && multiset(cs[k].members)[x] == 1 {
      ContentsAt(cs, k);
      assert 0 < multiset(cs[k].members)[x] <= Contents(cs)[x];
    }
    forall x | x in ids ensures exists k | 0 <= k < |cs| :: x in cs[k].members {
      assert x in Contents(cs);
      ItemHasClass(cs, x);
    }
    forall a, b, x | 0 <= a < |cs| && 0 <= b < |cs| && x in cs[a].members && x in cs[b].members ensures a == b {
      if a != b {
        InTwoClasses(cs, a, b, x);
      }
    }
  }

  // ------------------------------------------------ distances

  /** The features of two items, compared one by one. */
  function Direct(ld: (string, string) -> nat, a: seq<string>, b: seq<string>): nat
    requires |a| <= |b|
  {
    if a == [] then 0
    else Direct(ld, a[..|a| - 1], b[..|a| - 1]) + ld(a[|a| - 1], b[|a| - 1])
  }

  predicate IsLeast(s: set<int>, k: int) { k in s && forall j | j in s :: k <= j }

  lemma HasLeast(s: set<int>) returns (k: int)
    requires s != {}
    ensures IsLeast(s, k)
    decreases |s|
  {
    assert (forall x :: x !in s) ==> s == {};
    k :| k in s;
    var rest := s - {k};
    assert forall j | j in s :: j == k || j in rest;
    if rest != {} {
      var y := HasLeast(rest);
      k := if k < y then k else y;
    }
  }

  lemma DirectOne(ld: (string, string) -> nat, a: string, b: string)
    ensures Direct(ld, [a], [b]) == ld(a, b)
  {
    assert [a][..0] == [] && [b][..0] == [];
  }

  /** The distance of two items is a sum over their features: nothing without features, and additive; with
      DirectOne that fixes it. */
  lemma {:induction false} DirectAppend(ld: (string, string) -> nat, a: seq<string>, b: seq<string>,
                                        c: seq<string>, d: seq<string>)
    requires |a| == |b| && |c| == |d|
    ensures Direct(ld, [], []) == 0 && Direct(ld, a + c, b + d) == Direct(ld, a, b) + Direct(ld, c, d)
    decreases |c|
  {
    if c == [] {
      assert a + c == a && b + d == b;
    } else {
      var n := |c| - 1;
      DirectAppend(ld, a, b, c[..n], d[..n]);
      assert (a + c)[..|a + c| - 1] == a + c[..n] && (b + d)[..|a + c| - 1] == b + d[..n];
    }
  }

  /** For example: a link and its path, of which only the links differ. */
  lemma LinkAndPath(ld: (string, string) -> nat, a: string, b: string, path: string)
    ensures Direct(ld, [a, path], [b, path]) == ld(a, b) + ld(path, path)
  {
    DirectAppend(ld, [a], [b], [path], [path]);
    DirectOne(ld, a, b);
    DirectOne(ld, path, path);
    assert [a, path] == [a] + [path] && [b, path] == [b] + [path];
  }

  class LayerCluster {
    /** The string distance, any one. */
    const ld: (string, string) -> nat
    const vatts: map<int, seq<string>>
    var classes: seq<Class>
    var distMap: map<int, int>
    /** The lists of classes that Cluster has gone through, one merge apart. */
    ghost var history: seq<seq<Class>>

    /** All items have the same number of features. */
    ghost predicate Aligned() {
      forall i, j | i in vatts && j in vatts :: |vatts[i]| == |vatts[j]|
    }

    constructor (ld: (string, string) -> nat, vatts: map<int, seq<string>>)
      ensures this.ld == ld && this.vatts == vatts && classes == [] && distMap == map[]
    {
      this.ld, this.vatts, classes, distMap := ld, vatts, [], map[];
    }

    /** The distance from i to j, without the memory. */
    ghost function D(i: int, j: int): nat
      requires Aligned() && i in vatts && j in vatts
    {
      Direct(ld, vatts[i], vatts[j])
    }

    /** Every remembered distance is that of some pair with its key. */
    ghost predicate Remembered()
      requires Aligned()
      reads this`distMap
    {
      forall key | key in distMap :: IsDistance(key, distMap[key])
    }

    ghost predicate IsDistance(key: int, d: int)
      requires Aligned()
    {
      exists i, j :: i in vatts && j in vatts && Key(i, j) == key && D(i, j) == d
    }

    /** Pairs that share a key are equally far apart; so they are if no two share one. */
    ghost predicate Unambiguous()
      requires Aligned()
    {
      forall i, j, k, l | i in vatts && j in vatts && k in vatts && l in vatts && Key(i, j) == Key(k, l) ::
        D(i, j) == D(k, l)
    }

    lemma KeyedIsUnambiguous()
      requires Aligned() && Keyed(vatts.Keys)
      ensures Unambiguous()
    {
    }

    /** AttDist: what is remembered under the key, or else the direct sum, which then is remembered.
        That is always the distance of some pair with this key. */
    method AttDist(i: int, j: int) returns (d: int)
      requires Aligned() && i in vatts && j in vatts
      modifies this`distMap
      ensures d == if Key(i, j) in old(distMap) then old(distMap)[Key(i, j)] else D(i, j)
      ensures distMap == old(distMap)[Key(i, j) := d]
      ensures old(Remembered()) ==> Remembered() && IsDistance(Key(i, j), d) && (Unambiguous() ==> d == D(i, j))
    {
      var combine := i * 10000 + j;
      if combine in distMap {
        d := distMap[combine];
        assert distMap == distMap[combine := d];
      } else {
        d := 0;
        var a, b := vatts[i], vatts[j];
        for k := 0 to |a|
          invariant d == Direct(ld, a[..k], b[..k])
        {
          assert a[..k + 1][..k] == a[..k] && b[..k + 1][..k] == b[..k];
          d := d + ld(a[k], b[k]);
        }
        assert a[..|a|] == a && b[..|a|] == b;
        assert IsDistance(combine, d);
        distMap := distMap[combine := d];
      }
    }

    /** Questions about pairs of items. */
    ghost predicate Askable(qs: seq<(int, int)>) { forall q | q in qs :: q.0 in vatts && q.1 in vatts }

    /** The answers, one after the other, if `memo` is remembered at first. */
    ghost function Answers(memo: map<int, int>, qs: seq<(int, int)>): seq<int>
      requires Aligned() && Askable(qs)
      decreases |qs|
    {
      if qs == [] then []
      else
        var key := Key(qs[0].0, qs[0].1);
        var d := if key in memo then memo[key] else D(qs[0].0, qs[0].1);
        [d] + Answers(memo[key := d], qs[1..])
    }

    ghost function RightAnswers(qs: seq<(int, int)>): seq<int>
      requires Aligned() && Askable(qs)
    {
      seq(|qs|, i requires 0 <= i < |qs| => D(qs[i].0, qs[i].1))
    }

    /** The answer to the k-th question, and the answers to those after it. */
    lemma AnswersStep(memo: map<int, int>, qs: seq<(int, int)>, k: nat)
      requires Aligned() && Askable(qs) && k < |qs|
      ensures var key := Key(qs[k].0, qs[k].1);
        var d := if key in memo then memo[key] else D(qs[k].0, qs[k].1);
        Answers(memo, qs[k..]) == [d] + Answers(memo[key := d], qs[k + 1..])
    {
      hide D;
      assert qs[k..][1..] == qs[k + 1..];
    }

    lemma NoAnswers(memo: map<int, int>)
      requires Aligned()
      ensures Answers(memo, []) == []
    {
    }

    /** Asking them. */
    method AskAll(qs: seq<(int, int)>) returns (r: seq<int>)
      requires Aligned() && Askable(qs)
      modifies this`distMap
      ensures r == Answers(old(distMap), qs)
    {
      hide D, Aligned, LayerCluster.Answers, Key;
      r := [];
      assert qs[0..] == qs;
      for k := 0 to |qs|
        invariant Answers(old(distMap), qs) == r + Answers(distMap, qs[k..])
      {
        AnswersStep(distMap, qs, k);
        ghost var rest := Answers(distMap, qs[k..]);
        var d := AttDist(qs[k].0, qs[k].1);
        assert rest == [d] + Answers(distMap, qs[k + 1..]);
        r := r + [d];
      }
      NoAnswers(distMap);
      assert qs[|qs|..] == [] && r + [] == r;
    }

    lemma {:induction false} UnambiguousAnswers(memo: map<int, int>, qs: seq<(int, int)>)
      requires Aligned() && Askable(qs) && Unambiguous()
      requires forall i, j | i in vatts && j in vatts && Key(i, j) in memo :: memo[Key(i, j)] == D(i, j)
      ensures Answers(memo, qs) == RightAnswers(qs)
      decreases |qs|
    {
      if qs != [] {
        var key := Key(qs[0].0, qs[0].1);
        UnambiguousAnswers(memo[key := D(qs[0].0, qs[0].1)], qs[1..]);
        assert RightAnswers(qs) == [D(qs[0].0, qs[0].1)] + RightAnswers(qs[1..]);
      }
    }

    /** Every sequence of questions is answered rightly if and only if pairs that share a key are equally
        far apart. */
    lemma AnsweredRightlyIff()
      requires Aligned()
      ensures Unambiguous() <==> forall qs | Askable(qs) :: Answers(map[], qs) == RightAnswers(qs)
    {
      if Unambiguous() {
        forall qs | Askable(qs) ensures Answers(map[], qs) == RightAnswers(qs) {
          UnambiguousAnswers(map[], qs);
        }
      } else {
        var i, j, k, l :| i in vatts && j in vatts && k in vatts && l in vatts
          && Key(i, j) == Key(k, l) && D(i, j) != D(k, l);
        SecondAnswer(i, j, k, l);
      }
    }

    lemma SecondAnswer(i: int, j: int, k: int, l: int)
      requires Aligned() && i in vatts && j in vatts && k in vatts && l in vatts && Key(i, j) == Key(k, l)
      ensures Askable([(i, j), (k, l)]) && Answers(map[], [(i, j), (k, l)]) == [D(i, j), D(i, j)]
      ensures RightAnswers([(i, j), (k, l)]) == [D(i, j), D(k, l)]
    {
      var qs := [(i, j), (k, l)];
      var memo: map<int, int> := map[][Key(i, j) := D(i, j)];
      assert qs[1..] == [(k, l)] && qs[1..][1..] == [];
      assert Answers(memo, qs[1..]) == [D(i, j)] + Answers(memo[Key(k, l) := D(i, j)], []);
      assert Answers(map[], qs) == [D(i, j)] + Answers(memo, qs[1..]);
    }

    /** The sum of the distances from m to the items of a list. */
    ghost function Total(l: seq<int>, m: int): nat
      requires Aligned() && m in vatts && forall x | x in l :: x in vatts
    {
      if l == [] then 0 else Total(l[..|l| - 1], m) + D(m, l[|l| - 1])
    }

    /** It is the sum over all items of a list, in any order. */
    lemma {:induction false} TotalAppend(l: seq<int>, k: seq<int>, m: int)
      requires Aligned() && m in vatts && (forall x | x in l :: x in vatts) && forall x | x in k :: x in vatts
      ensures Total([], m) == 0 && Total(l + k, m) == Total(l, m) + Total(k, m)
      ensures forall x | x in k :: Total([x], m) == D(m, x)
      decreases |k|
    {
      hide D;
      if k == [] {
        assert l + k == l;
      } else {
        var n := |k| - 1;
        TotalAppend(l, k[..n], m);
        assert (l + k)[..|l + k| - 1] == l + k[..n];
      }
      assert forall x: int :: [x][..0] == [];
    }

    /** CacuTDist: never more than `far` for each item, if no distance is; and the total distance, if the
        memory is unambiguous. */
    method CacuTDist(indexs: seq<int>, index: int, ghost far: nat) returns (r: int)
      requires Aligned() && Remembered() && Within(far)
      requires index in vatts && forall x | x in indexs :: x in vatts
      modifies this`distMap
      ensures Remembered() && 0 <= r <= |indexs| * far && (Unambiguous() ==> r == Total(indexs, index))
    {
      hide Aligned, Remembered, Unambiguous, D;
      r := 0;
      for k := 0 to |indexs|
        invariant Remembered() && 0 <= r <= k * far && (Unambiguous() ==> r == Total(indexs[..k], index))
      {
        var d := AttDist(index, indexs[k]);
        WithinDistance(Key(index, indexs[k]), d, far);
        assert (k + 1) * far == k * far + far;
        assert indexs[..k + 1][..k] == indexs[..k];
        r := r + d;
      }
      assert indexs[..|indexs|] == indexs;
    }

    /** No distance exceeds `far`. */
    ghost predicate Within(far: nat)
      requires Aligned()
    {
      forall i, j | i in vatts && j in vatts :: D(i, j) <= far
    }

    lemma WithinDistance(key: int, d: int, far: nat)
      requires Aligned() && Within(far) && IsDistance(key, d)
      ensures 0 <= d <= far
    {
    }

    /** The first member of least total distance. */
    ghost predicate IsCentre(l: seq<int>, c: int)
      requires Aligned() && forall x | x in l :: x in vatts
    {
      exists k ::
        && 0 <= k < |l| && l[k] == c
        && (forall j | 0 <= j < |l| :: Total(l, c) <= Total(l, l[j]))
        && (forall j | 0 <= j < k :: Total(l, c) < Total(l, l[j]))
    }

    /** CacuCenter: an item of the list, if some total is below INT_MAX, and otherwise 0, an item or not.
        If the memory is unambiguous it is the first medoid. */
    method CacuCenter(indexs: seq<int>, ghost far: nat) returns (ret: int)
      requires Aligned() && Remembered() && Within(far) && forall x | x in indexs :: x in vatts
      modifies this`distMap
      ensures Remembered() && (ret in indexs || ret == 0)
      ensures |indexs| > 0 && |indexs| * far < INT_MAX ==> ret in indexs
      ensures Unambiguous() ==>
        if exists k :: 0 <= k < |indexs| && Total(indexs, indexs[k]) < 2147483647
        then IsCentre(indexs, ret) else ret == 0
    {
      hide Aligned, Remembered, Unambiguous, D, Total, Within;
      ret := 0;
      var min := INT_MAX;
      ghost var best := -1;
      for k := 0 to |indexs|
        invariant Remembered() && -1 <= best < k && min <= INT_MAX
        invariant best == -1 ==> min == INT_MAX && ret == 0
        invariant best >= 0 ==> ret == indexs[best] && min < INT_MAX
        invariant k > 0 && |indexs| * far < INT_MAX ==> best >= 0
        invariant Unambiguous() && best >= 0 ==> min == Total(indexs, ret)
        invariant Unambiguous() ==> forall j | 0 <= j < k :: min <= Total(indexs, indexs[j])
        invariant Unambiguous() && best >= 0 ==> forall j | 0 <= j < best :: min < Total(indexs, indexs[j])
      {
        var cur := CacuTDist(indexs, indexs[k], far);
        if min > cur {
          min, ret, best := cur, indexs[k], k;
        }
      }
    }

    // ---------------------------------------------- classes

    /** A class of items around one of them, of least total distance. */
    ghost predicate GoodClass(c: Class)
      requires Aligned()
    {
      && (forall x | x in c.members :: x in vatts)
      && c.centre in c.members
      && (forall x | x in c.members :: Total(c.members, c.centre) <= Total(c.members, x))
    }

    lemma {:induction false} TotalBound(l: seq<int>, m: int, far: nat)
      requires Aligned() && Within(far) && m in vatts && (forall x | x in l :: x in vatts)
      ensures Total(l, m) <= |l| * far
      decreases |l|
    {
      if l != [] {
        TotalBound(l[..|l| - 1], m, far);
        assert |l| * far == (|l| - 1) * far + far;
      }
    }

    /** A class of items, whose centre is an item as well. */
    ghost predicate Placed(c: Class) {
      c.centre in vatts && c.members != [] && forall x | x in c.members :: x in vatts
    }

    /** The state between two steps of Cluster, with up to n items.  Totals below INT_MAX, or an item 0,
        keep every centre an item. */
    ghost predicate Stable(far: nat, n: nat)
      reads this`classes, this`distMap
    {
      && Aligned() && Remembered() && Within(far) && (n * far < INT_MAX || 0 in vatts)
      && |Contents(classes)| <= n
      && forall c | c in classes :: Placed(c)
    }

    /** What makes the clustering one around medoids: the memory is unambiguous, and all totals are below
        INT_MAX. */
    ghost predicate Exact(far: nat, n: nat)
      reads this`classes
    {
      Aligned() && Unambiguous() && n * far < INT_MAX && forall c | c in classes :: GoodClass(c)
    }

    /** MergeClass: the members of both, around the centre of the union. */
    method MergeClass(class1: Class, class2: Class, ghost far: nat, ghost n: nat) returns (c: Class)
      requires Stable(far, n) && Placed(class1) && Placed(class2)
      requires |class1.members| + |class2.members| <= n
      modifies this`distMap
      ensures Stable(far, n) && Placed(c) && c.members == class1.members + class2.members
      ensures Unambiguous() && n * far < INT_MAX ==> GoodClass(c) && IsCentre(c.members, c.centre)
    {
      hide Aligned, Remembered, Unambiguous, D, Total, Contents, Within, GoodClass, IsCentre;
      var tmp := class1.members + class2.members;
      var cen := CacuCenter(tmp, far);
      Product(|tmp|, n, far);
      if Unambiguous() && n * far < INT_MAX {
        TotalBound(tmp, tmp[0], far);
        CentreIsGood(Class(cen, tmp));
      }
      return Class(cen, tmp);
    }

    lemma Product(m: nat, n: nat, far: nat)
      requires m <= n
      ensures m * far <= n * far
    {
    }

    lemma CentreIsGood(c: Class)
      requires Aligned() && (forall x | x in c.members :: x in vatts) && IsCentre(c.members, c.centre)
      ensures GoodClass(c)
    {
    }

    // ---------------------------------------------- single merges

    ghost predicate AtLeast(c1: Class, c2: Class, bound: int)
      requires Aligned()
    {
      c1.centre == c2.centre || (c1.centre in vatts && c2.centre in vatts && D(c1.centre, c2.centre) >= bound)
    }

    /** The pairs before (it, sit), in the order of the list, are at least `bound` apart. */
    ghost predicate Compared(cs: seq<Class>, it: nat, sit: nat, bound: int)
      requires Aligned()
    {
      forall a, b | 0 <= a < b < |cs| && (a < it || (a == it && b < sit)) :: AtLeast(cs[a], cs[b], bound)
    }

    /** `b` is `a` with the classes i and j merged around their medoid. */
    ghost predicate IsMerge(a: seq<Class>, b: seq<Class>, i: nat, j: nat, c: Class)
      requires Aligned()
    {
      && i < |a| && j < |a| && i != j
      && c.members == a[i].members + a[j].members && (forall x | x in c.members :: x in vatts)
      && IsCentre(c.members, c.centre)
      && b == Without(a[i := c], j)
    }

    /** A pair may be merged if it is closer than dy_low; or, when no pair is, if it is a closest pair and
        not farther apart than dy_high. */
    ghost predicate MayMerge(a: seq<Class>, i: nat, j: nat, dyLow: int, dyHigh: int)
      requires Aligned() && i < |a| && j < |a|
    {
      || !AtLeast(a[i], a[j], dyLow)
      || (Compared(a, |a|, 0, dyLow) && exists d | d <= dyHigh :: Compared(a, |a|, 0, d) && !AtLeast(a[i], a[j], d + 1))
    }

    ghost predicate IsStep(a: seq<Class>, b: seq<Class>, dyLow: int, dyHigh: int)
      requires Aligned()
    {
      exists i, j, c :: IsMerge(a, b, i, j, c) && MayMerge(a, i, j, dyLow, dyHigh)
    }

    /** The history leads from `base` to the present list, by permitted merges alone. */
    ghost predicate Lawful(base: seq<Class>, dyLow: int, dyHigh: int)
      requires Aligned()
      reads this`classes, this`history
    {
      && |history| > 0 && history[0] == base && history[|history| - 1] == classes
      && forall k | 0 <= k < |history| - 1 :: IsStep(history[k], history[k + 1], dyLow, dyHigh)
    }

    /** *it = MergeClass(*it, *sit); classes.erase(sit).  `exact` says whether the clustering is one around
        medoids; then this is a permitted merge. */
    method MergeAt(it: nat, sit: nat, ghost exact: bool, ghost base: seq<Class>, ghost dyLow: int, ghost dyHigh: int,
                   ghost far: nat, ghost n: nat)
      requires Stable(far, n) && it < |classes| && sit < |classes| && it != sit
      requires exact ==> Exact(far, n) && Lawful(base, dyLow, dyHigh) && MayMerge(classes, it, sit, dyLow, dyHigh)
      modifies this`classes, this`distMap, this`history
      ensures Stable(far, n) && Contents(classes) == Contents(old(classes)) && |classes| == |old(classes)| - 1
      ensures exact ==> Exact(far, n) && Lawful(base, dyLow, dyHigh) && history == old(history) + [classes]
    {
      hide Aligned, Remembered, Unambiguous, Within, IsCentre, Contents, D, Total, MayMerge, GoodClass;
      ghost var cs := classes;
      assert Placed(classes[it]) && Placed(classes[sit]);
      UnionFits(classes, it, sit);
      var c := MergeClass(classes[it], classes[sit], far, n);
      MergeConserves(classes, it, sit, c);
      classes := Without(classes[it := c], sit);
      assert forall d | d in classes :: d == c || d in cs;
      if exact {
        assert IsMerge(cs, classes, it, sit, c);
      }
      history := history + [classes];
    }

    // ---------------------------------------------- one pass over the pairs

    ghost predicate SomeBelow(cs: seq<Class>, bound: int)
      requires Aligned()
    {
      exists a, b :: 0 <= a < b < |cs| && !AtLeast(cs[a], cs[b], bound)
    }

    /** `min` is INT_MAX, or the distance of the pair (t1, t2). */
    ghost predicate Reached(cs: seq<Class>, min: int, t1: nat, t2: nat)
      requires Aligned()
    {
      min < INT_MAX ==> t1 < t2 < |cs| && !AtLeast(cs[t1], cs[t2], min + 1) && AtLeast(cs[t1], cs[t2], min)
    }

    /** Before the first merge of a pass nothing has changed, and afterwards there are fewer classes. */
    ghost predicate Progress(cs: seq<Class>, hasMerg: bool, min: int, t1: nat, t2: nat)
      reads this`classes
    {
      && Contents(classes) == Contents(cs) && min <= INT_MAX
      && if hasMerg then |classes| < |cs| else classes == cs && (min < INT_MAX ==> t1 < t2 < |cs|)
    }

    /** If the clustering is one around medoids: before the first merge the smallest distance so far is known,
        and afterwards some pair was closer than dy_low. */
    ghost predicate Known(cs: seq<Class>, it: nat, sit: nat, dyLow: int, hasMerg: bool, min: int, t1: nat, t2: nat)
      requires Aligned()
    {
      if hasMerg then SomeBelow(cs, dyLow)
      else Compared(cs, it, sit, dyLow) && Compared(cs, it, sit, min) && Reached(cs, min, t1, t2)
    }

    lemma ComparedNext(cs: seq<Class>, it: nat, sit: nat, bound: int, lower: int)
      requires Aligned() && Compared(cs, it, sit, bound) && lower <= bound
      requires it < sit < |cs| ==> AtLeast(cs[it], cs[sit], lower)
      ensures Compared(cs, it, sit + 1, lower)
      ensures sit >= |cs| ==> Compared(cs, it + 1, 0, lower)
    {
    }

    /** AttDist between the centres of two classes. */
    method CentreDist(it: nat, sit: nat, ghost far: nat, ghost n: nat) returns (dist: int)
      requires Stable(far, n) && it < |classes| && sit < |classes|
      modifies this`distMap
      ensures Stable(far, n) && classes[it].centre in vatts && classes[sit].centre in vatts
      ensures Exact(far, n) ==> dist == D(classes[it].centre, classes[sit].centre)
    {
      hide Aligned, Remembered, Unambiguous, Within, Contents, D, GoodClass, IsDistance;
      assert Placed(classes[it]) && Placed(classes[sit]);
      dist := AttDist(classes[it].centre, classes[sit].centre);
    }

    /** The inner loop, for the class at `it`.  `last` is -1 once the element it stood on is erased. */
    method Scan(it0: nat, dyLow: int, hasMerg0: bool, min0: int, t10: nat, t20: nat, ghost exact: bool,
                ghost cs: seq<Class>, ghost base: seq<Class>, ghost dyHigh: int, ghost far: nat, ghost n: nat)
      returns (it: nat, hasMerg: bool, min: int, t1: nat, t2: nat)
      requires Stable(far, n) && it0 < |classes| && Progress(cs, hasMerg0, min0, t10, t20)
      requires exact ==> Exact(far, n) && Lawful(base, dyLow, dyHigh)
      requires exact ==> Known(cs, it0, 0, dyLow, hasMerg0, min0, t10, t20)
      modifies this`classes, this`distMap, this`history
      ensures Stable(far, n) && it < |classes| && |classes| - it <= |old(classes)| - it0
      ensures Progress(cs, hasMerg, min, t1, t2)
      ensures exact ==> Exact(far, n) && Lawful(base, dyLow, dyHigh)
      ensures exact ==> Known(cs, it + 1, 0, dyLow, hasMerg, min, t1, t2)
    {
      hide Aligned, Remembered, Unambiguous, Within, IsCentre, Contents, Compared, Without, D, Lawful, Stable, Exact;
      StableIsAligned(far, n);
      it, hasMerg, min, t1, t2 := it0, hasMerg0, min0, t10, t20;
      var sit := if hasMerg then 0 else it;
      var last: int := sit;
      if exact && !hasMerg {
        ComparedStart(cs, it, sit, dyLow);
        ComparedStart(cs, it, sit, min);
      }
      while sit < |classes|
        invariant it < |classes| && 0 <= sit <= |classes| && -1 <= last <= sit
        invariant |classes| - it <= |old(classes)| - it0
        invariant hasMerg || it <= sit
        invariant Stable(far, n) && Progress(cs, hasMerg, min, t1, t2)
        invariant exact ==> Exact(far, n) && Lawful(base, dyLow, dyHigh)
        invariant exact ==> Known(cs, it, sit, dyLow, hasMerg, min, t1, t2)
        decreases |classes|, |classes| - sit
      {
        if classes[it].centre == classes[sit].centre {
          if exact && !hasMerg {
            ComparedNext(cs, it, sit, dyLow, dyLow);
            ComparedNext(cs, it, sit, min, min);
          }
        } else {
          var dist := CentreDist(it, sit, far, n);
          if dist < dyLow {
            MergeAt(it, sit, exact, base, dyLow, dyHigh, far, n);
            hasMerg := true;
            if last == sit {
              last := -1;
            }
            if sit < it {
              it := it - 1;
            }
            sit := last;
          } else {
            if exact && !hasMerg {
              ComparedNext(cs, it, sit, dyLow, dyLow);
              ComparedNext(cs, it, sit, min, if min > dist then dist else min);
            }
            if min > dist {
              min, t1, t2 := dist, it, sit;
            }
            last := sit;
          }
        }
        sit := sit + 1;
      }
      if exact && !hasMerg {
        ComparedNext(cs, it, sit, dyLow, dyLow);
        ComparedNext(cs, it, sit, min, min);
      }
    }

    lemma StableIsAligned(far: nat, n: nat)
      requires Stable(far, n)
      ensures Aligned()
    {
    }

    lemma ComparedStart(cs: seq<Class>, it: nat, sit: nat, bound: int)
      requires Aligned() && Compared(cs, it, 0, bound) && sit <= it
      ensures Compared(cs, it, sit, bound)
    {
    }

    /** One round of the outer loop, up to the test of the number of classes: it merges exactly if some
        pair is closer than dy_low, and otherwise finds the closest pair. */
    method Pass(dyLow: int, ghost exact: bool, ghost base: seq<Class>, ghost dyHigh: int, ghost far: nat, ghost n: nat)
      returns (hasMerg: bool, min: int, t1: nat, t2: nat)
      requires Stable(far, n) && (exact ==> Exact(far, n) && Lawful(base, dyLow, dyHigh))
      modifies this`classes, this`distMap, this`history
      ensures Stable(far, n) && Progress(old(classes), hasMerg, min, t1, t2)
      ensures exact ==> Exact(far, n) && Lawful(base, dyLow, dyHigh)
      ensures exact ==> (hasMerg <==> SomeBelow(old(classes), dyLow))
      ensures exact && !hasMerg ==> Compared(classes, |classes|, 0, dyLow) && Compared(classes, |classes|, 0, min)
      ensures exact && !hasMerg ==> Reached(classes, min, t1, t2)
    {
      hide Aligned, Remembered, Unambiguous, Within, Contents, AtLeast, Lawful, GoodClass;
      hasMerg, min, t1, t2 := false, INT_MAX, 0, 0;
      ghost var cs := classes;
      var it := 0;
      while it < |classes|
        invariant 0 <= it <= |classes| && Stable(far, n) && Progress(cs, hasMerg, min, t1, t2)
        invariant exact ==> Exact(far, n) && Lawful(base, dyLow, dyHigh)
        invariant exact ==> Known(cs, it, 0, dyLow, hasMerg, min, t1, t2)
        decreases |classes| - it
      {
        it, hasMerg, min, t1, t2 := Scan(it, dyLow, hasMerg, min, t1, t2, exact, cs, base, dyHigh, far, n);
        it := it + 1;
      }
    }

    /** Classes of one item each, the ids ascending. */
    ghost predicate Singles(cs: seq<Class>) {
      && (forall a | 0 <= a < |cs| :: cs[a].members == [cs[a].centre])
      && (forall a, b | 0 <= a < b < |cs| :: cs[a].centre < cs[b].centre)
    }

    /** Such classes, of items below all those of a set. */
    ghost predicate Below(cs: seq<Class>, ids: set<int>) {
      Singles(cs) && forall a, x | 0 <= a < |cs| && x in ids :: cs[a].centre < x
    }

    lemma NothingBelow(ids: set<int>)
      ensures Below([], ids)
    {
    }

    lemma BelowSnoc(cs: seq<Class>, ids: set<int>, id: int)
      requires Below(cs, ids) && id in ids && IsLeast(ids, id)
      ensures Below(cs + [Class(id, [id])], ids - {id})
    {
    }

    lemma BelowAreSingles(cs: seq<Class>, ids: set<int>)
      requires Below(cs, ids)
      ensures Singles(cs)
    {
    }

    /** The for_each over the items: every item a class of its own, in the order of the ids. */
    method AddIndices(ghost far: nat, ghost n: nat)
      requires Stable(far, n) && |Contents(classes)| + |vatts.Keys| <= n
      modifies this`classes
      ensures Stable(far, n) && (old(Exact(far, n)) ==> Exact(far, n))
      ensures Contents(classes) == Contents(old(classes)) + multiset(vatts.Keys)
      ensures old(classes) <= classes && Singles(classes[|old(classes)|..])
    {
      hide Aligned, Remembered, Unambiguous, Within, D, Contents, Below;
      var remaining := vatts.Keys;
      ghost var added: seq<Class> := [];
      assert classes + added == classes;
      NothingBelow(remaining);
      while remaining != {}
        invariant remaining <= vatts.Keys && Stable(far, n) && (old(Exact(far, n)) ==> Exact(far, n))
        invariant classes == old(classes) + added && Below(added, remaining)
        invariant Contents(classes) + multiset(remaining) == Contents(old(classes)) + multiset(vatts.Keys)
      {
        ghost var least := HasLeast(remaining);
        var id :| id in remaining && IsLeast(remaining, id);
        var c := Class(id, [id]);
        ContentsSnoc(classes, c);
        assert Placed(c) && (old(Exact(far, n)) ==> GoodClass(c));
        BelowSnoc(added, remaining, id);
        assert multiset(remaining) == multiset{id} + multiset(remaining - {id});
        added := added + [c];
        classes := classes + [c];
        remaining := remaining - {id};
        assert |Contents(classes)| <= n by {
          assert |multiset(vatts.Keys)| == |vatts.Keys|;
          assert |Contents(classes) + multiset(remaining)| == |Contents(old(classes)) + multiset(vatts.Keys)|;
        }
      }
      BelowAreSingles(added, remaining);
      assert classes[|old(classes)|..] == added;
    }

    /** Cluster: it ends, and no item is lost or doubled.  If pairs that share a key are equally far apart and
        totals stay below INT_MAX, every class is around a medoid; what is left is one class at most, or
        classes of which every two, in the order of the list, are farther apart than dy_high and not closer
        than dy_low; and the way there, from single items, consists of merges of pairs closer than dy_low and,
        where there is none, of closest pairs within dy_high. */
    method Cluster(dyHigh: int, dyLow: int, ghost far: nat, ghost n: nat)
      requires Stable(far, n) && |Contents(classes)| + |vatts.Keys| <= n && dyHigh < INT_MAX
      modifies this`classes, this`distMap, this`history
      ensures Stable(far, n) && Contents(classes) == Contents(old(classes)) + multiset(vatts.Keys)
      ensures old(Exact(far, n)) ==> Exact(far, n)
      ensures old(Exact(far, n)) ==>
        && |history| > 0 && Lawful(history[0], dyLow, dyHigh)
        && old(classes) <= history[0] && Singles(history[0][|old(classes)|..])
      ensures old(Exact(far, n)) && |classes| > 1 ==>
        Compared(classes, |classes|, 0, dyHigh + 1) && Compared(classes, |classes|, 0, dyLow)
    {
      hide Aligned, Remembered, Unambiguous, Within, Contents, AtLeast, SomeBelow, GoodClass, Compared, Singles;
      ghost var exact := Exact(far, n);
      AddIndices(far, n);
      history := [classes];
      ghost var base := classes;
      while true
        invariant Stable(far, n) && Contents(classes) == Contents(old(classes)) + multiset(vatts.Keys)
        invariant exact ==> Exact(far, n) && Lawful(base, dyLow, dyHigh)
        decreases |classes|
      {
        var hasMerg, min, t1, t2 := Pass(dyLow, exact, base, dyHigh, far, n);
        if |classes| <= 1 {
          break;
        }
        if !hasMerg {
          if min > dyHigh {
            if exact {
              Weaken(classes, min, dyHigh + 1);
            }
            break;
          }
          MergeAt(t1, t2, exact, base, dyLow, dyHigh, far, n);
        }
      }
    }

    lemma Weaken(cs: seq<Class>, bound: int, lower: int)
      requires Aligned() && lower <= bound && Compared(cs, |cs|, 0, bound)
      ensures Compared(cs, |cs|, 0, lower)
    {
    }

    /** What that means for a first call: the classes partition the items, and the distance between any
        two centres, in the order of the list, exceeds dy_high. */
    lemma AfterFirstCall(dyHigh: int, far: nat, n: nat)
      requires Exact(far, n) && Contents(classes) == multiset(vatts.Keys)
      requires |classes| <= 1 || Compared(classes, |classes|, 0, dyHigh + 1)
      ensures Partition(classes, vatts.Keys)
      ensures forall c | c in classes :: GoodClass(c)
      ensures forall a, b | 0 <= a < b < |classes| ::
        classes[a].centre in vatts && classes[b].centre in vatts && D(classes[a].centre, classes[b].centre) > dyHigh
    {
      hide Contents, D, Unambiguous;
      ContentsPartition(classes, vatts.Keys);
      forall a, b | 0 <= a < b < |classes|
        ensures classes[a].centre in vatts && classes[b].centre in vatts
        ensures D(classes[a].centre, classes[b].centre) > dyHigh
      {
        assert GoodClass(classes[a]) && GoodClass(classes[b]);
        assert AtLeast(classes[a], classes[b], dyHigh + 1);
      }
    }
  }

  function Discrete(a: string, b: string): nat { if a == b then 0 else 1 }

  lemma ExampleDistances(c: LayerCluster)
    requires c.ld == Discrete && c.vatts == map[0 := ["a"], 1 := ["a"], 10000 := ["b"]]
    ensures c.Aligned() && c.D(0, 10000) == 1 && c.D(1, 0) == 0
  {
    DirectOne(c.ld, "a", "a");
    DirectOne(c.ld, "a", "b");
  }

  /** Three items for which AttDist errs: asked for the distance from 0 to 10000 first, it gives the same
      answer for that from 1 to 0, although those two items are equal. */
  method WrongAnswer() returns (c: LayerCluster, first: int, second: int)
    ensures c.Aligned() && c.vatts.Keys == {0, 1, 10000}
    ensures first == c.D(0, 10000) == 1 && second == 1 && c.D(1, 0) == 0
  {
    hide Direct, LayerCluster.D, LayerCluster.Aligned;
    c := new LayerCluster(Discrete, map[0 := ["a"], 1 := ["a"], 10000 := ["b"]]);
    ExampleDistances(c);
    first := c.AttDist(0, 10000);
    second := c.AttDist(1, 0);
  }
}
