/**
 * `pickTasks` (trainer.js): group the topic's tasks by their `type`, shuffle
 * the distinct types, keep the first `problemsToSelect || 3` of them and take
 * one task of each kept type.
 *
 * The randomness is passed in. The shuffle (`sort` with a random comparator)
 * is an arbitrary permutation, chosen by `picks`: each step moves the key at
 * position `picks[0] % |rest|` of the remaining keys to the output. Every
 * permutation can be chosen this way (ShuffleReachesEvery), so the model rules
 * out no order a sort could produce and claims nothing about their likelihood.
 * `Math.random()` for the i-th kept type is `draw(i)`, a number in [0, 1).
 * `kind` gives the property key JavaScript makes of `task.type`, its string
 * form, so types with the same string form share one group.
 *
 * The functions carry only their length facts; what they mean is stated by
 * the lemma that follows each of them.
 */
module Sampler {
  import opened Common
  import opened Topic

  /** The accumulator of the `reduce`: the type keys in insertion order and the task list of each. */
  datatype Grouping<T, K> = Grouping(keys: seq<K>, members: map<K, seq<T>>)

  predicate Distinct<K(==)>(s: seq<K>) {
    forall i, j | 0 <= i < j < |s| :: s[i] != s[j]
  }

  /** The tasks of one type, in their order in the bank. */
  function OfType<T(==), K(==)>(tasks: seq<T>, kind: T -> K, k: K): (r: seq<T>)
    ensures |r| <= |tasks|
  {
    if tasks == [] then []
    else
      var last := tasks[|tasks| - 1];
      OfType(tasks[..|tasks| - 1], kind, k) + (if kind(last) == k then [last] else [])
  }

  /** A task is in the list of its type, and nothing else is. */
  lemma {:induction false} OfTypeMembers<T, K>(tasks: seq<T>, kind: T -> K, k: K, t: T)
    ensures t in OfType(tasks, kind, k) <==> t in tasks && kind(t) == k
  {
    if tasks != [] {
      var init := tasks[..|tasks| - 1];
      OfTypeMembers(init, kind, k, t);
      assert tasks == init + [tasks[|tasks| - 1]];
    }
  }

  /** The set of distinct `type` values in the bank. */
  function DistinctTypes<T(==), K(==)>(tasks: seq<T>, kind: T -> K): set<K> {
    set t | t in tasks :: kind(t)
  }

  /**
   * The `reduce` of `pickTasks`: for each task, create the list of its type if
   * it is missing, then push the task onto it.
   */
  function GroupByType<T(==), K(==)>(tasks: seq<T>, kind: T -> K): (g: Grouping<T, K>)
    ensures |g.keys| <= |tasks|
  {
    if tasks == [] then Grouping([], map[])
    else AddTask(GroupByType(tasks[..|tasks| - 1], kind), tasks[|tasks| - 1], kind)
  }

  /** One step of the `reduce`. */
  function AddTask<T, K(==)>(g: Grouping<T, K>, t: T, kind: T -> K): (r: Grouping<T, K>)
    ensures |r.keys| <= |g.keys| + 1
  {
    var k := kind(t);
    if k in g.members then Grouping(g.keys, g.members[k := g.members[k] + [t]])
    else Grouping(g.keys + [k], g.members[k := [t]])
  }

  /**
   * `g` groups `tasks`: it lists each type once, in `keys` and in `members`
   * alike, and holds under each type exactly the tasks of that type, in bank
   * order.
   */
  predicate Groups<T(==), K(==)>(g: Grouping<T, K>, tasks: seq<T>, kind: T -> K) {
    && Distinct(g.keys)
    && (forall k | k in g.keys :: k in g.members) && (forall k | k in g.members :: k in g.keys)
    && (forall k | k in g.members :: g.members[k] == OfType(tasks, kind, k) && g.members[k] != [])
    && (forall t | t in tasks :: kind(t) in g.members)
  }

  /** A type no task has gets an empty list. */
  lemma {:induction false} NoneOfType<T, K>(tasks: seq<T>, kind: T -> K, k: K)
    requires forall t | t in tasks :: kind(t) != k
    ensures OfType(tasks, kind, k) == []
  {
    if tasks != [] {
      NoneOfType(tasks[..|tasks| - 1], kind, k);
    }
  }

  /** Adding a task to the grouping of a bank gives the grouping of the longer bank. */
  lemma {:induction false} AddTaskKeepsGroups<T, K>(g: Grouping<T, K>, tasks: seq<T>, t: T, kind: T -> K)
    requires Groups(g, tasks, kind)
    ensures Groups(AddTask(g, t, kind), tasks + [t], kind)
  {
    var g' := AddTask(g, t, kind);
    var all := tasks + [t];
    assert all[..|tasks|] == tasks;
    forall k | k in g'.members ensures g'.members[k] == OfType(all, kind, k) && g'.members[k] != [] {
      assert OfType(all, kind, k) == OfType(tasks, kind, k) + (if kind(t) == k then [t] else []);
      if k !in g.members {
        NoneOfType(tasks, kind, k);
      }
    }
    if kind(t) !in g.members {
      forall i, j | 0 <= i < j < |g'.keys| ensures g'.keys[i] != g'.keys[j] {
        if j == |g.keys| {
          assert g'.keys[i] == g.keys[i];
        }
      }
    }
  }

  /** The `reduce` groups the whole bank. */
  lemma {:induction false} GroupByTypeSpec<T, K>(tasks: seq<T>, kind: T -> K)
    ensures Groups(GroupByType(tasks, kind), tasks, kind)
  {
    if tasks != [] {
      var init := tasks[..|tasks| - 1];
      GroupByTypeSpec(init, kind);
      AddTaskKeepsGroups(GroupByType(init, kind), init, tasks[|tasks| - 1], kind);
      assert tasks == init + [tasks[|tasks| - 1]];
    }
  }

  lemma {:induction false} DistinctCardinality<K>(s: seq<K>)
    requires Distinct(s)
    ensures |set x | x in s| == |s|
  {
    if s != [] {
      var init := s[..|s| - 1];
      var last := s[|s| - 1];
      DistinctCardinality(init);
      assert (set x | x in s) == (set x | x in init) + {last};
      assert last !in init;
    }
  }

  /** The grouping has exactly one key per distinct type of the bank. */
  lemma {:induction false} KeysAreDistinctTypes<T, K>(tasks: seq<T>, kind: T -> K)
    ensures (set k | k in GroupByType(tasks, kind).keys) == DistinctTypes(tasks, kind)
    ensures |GroupByType(tasks, kind).keys| == |DistinctTypes(tasks, kind)|
  {
    var g := GroupByType(tasks, kind);
    GroupByTypeSpec(tasks, kind);
    forall k | k in g.keys ensures k in DistinctTypes(tasks, kind) {
      OfTypeMembers(tasks, kind, k, g.members[k][0]);
    }
    DistinctCardinality(g.keys);
  }

  /** The sequence without its element at position `i`. */
  function RemoveAt<K>(s: seq<K>, i: nat): (r: seq<K>)
    requires i < |s|
    ensures |r| == |s| - 1
  {
    s[..i] + s[i + 1..]
  }

  /** Removing position `i` takes exactly one copy of `s[i]` away. */
  lemma {:induction false} RemoveAtMultiset<K>(s: seq<K>, i: nat)
    requires i < |s|
    ensures multiset(RemoveAt(s, i)) == multiset(s) - multiset{s[i]}
  {
    assert s == s[..i] + [s[i]] + s[i + 1..];
  }

  /** Removing position `i` keeps the other elements in their order. */
  lemma {:induction false} RemoveAtOrder<K>(s: seq<K>, i: nat)
    requires i < |s|
    ensures var r := RemoveAt(s, i);
      forall a | 0 <= a < |r| :: r[a] == s[if a < i then a else a + 1]
  {
  }

  /** The position the next shuffle step takes among `n` remaining keys. */
  function Choice(picks: seq<nat>, n: nat): (i: nat)
    requires n > 0
    ensures i < n
  {
    if picks == [] then 0 else picks[0] % n
  }

  /** The choices left after one shuffle step. */
  function Later(picks: seq<nat>): seq<nat> {
    if picks == [] then [] else picks[1..]
  }

  /** The shuffle: an arbitrary permutation, chosen by `picks`. */
  function Shuffle<K>(keys: seq<K>, picks: seq<nat>): (r: seq<K>)
    ensures |r| == |keys|
    decreases |keys|
  {
    if keys == [] then []
    else
      var i := Choice(picks, |keys|);
      [keys[i]] + Shuffle(RemoveAt(keys, i), Later(picks))
  }

  /** The shuffle is a permutation of the keys. */
  lemma {:induction false} ShufflePermutes<K>(keys: seq<K>, picks: seq<nat>)
    ensures multiset(Shuffle(keys, picks)) == multiset(keys)
    decreases |keys|
  {
    if keys != [] {
      var i := Choice(picks, |keys|);
      RemoveAtMultiset(keys, i);
      ShufflePermutes(RemoveAt(keys, i), Later(picks));
    }
  }

  lemma {:induction false} ConsDistinct<K>(x: K, tail: seq<K>)
    requires Distinct(tail) && x !in tail
    ensures Distinct([x] + tail)
  {
    var r := [x] + tail;
    forall a, b | 0 <= a < b < |r| ensures r[a] != r[b] {
      assert r[b] == tail[b - 1];
      if a > 0 {
        assert r[a] == tail[a - 1];
      }
    }
  }

  /** Shuffling distinct keys gives distinct keys. */
  lemma {:induction false} ShuffleDistinct<K>(keys: seq<K>, picks: seq<nat>)
    requires Distinct(keys)
    ensures Distinct(Shuffle(keys, picks))
    decreases |keys|
  {
    if keys != [] {
      var i := Choice(picks, |keys|);
      var rest := RemoveAt(keys, i);
      RemoveAtMultiset(keys, i);
      RemoveAtOrder(keys, i);
      assert Distinct(rest);
      assert keys[i] !in rest;
      ShuffleDistinct(rest, Later(picks));
      var tail := Shuffle(rest, Later(picks));
      ShufflePermutes(rest, Later(picks));
      assert keys[i] !in multiset(rest);
      assert keys[i] !in tail;
      ConsDistinct(keys[i], tail);
    }
  }

  ghost function IndexIn<K>(s: seq<K>, x: K): (i: nat)
    requires x in s
    ensures i < |s| && s[i] == x
  {
    if s[0] == x then 0 else 1 + IndexIn(s[1..], x)
  }

  /** A reordering of nonempty keys has the same length and starts with one of them. */
  lemma {:induction false} PermutationHead<K>(keys: seq<K>, p: seq<K>)
    requires multiset(p) == multiset(keys) && keys != []
    ensures |p| == |keys| && p[0] in keys
  {
    assert |p| == |multiset(p)| == |multiset(keys)| == |keys|;
    assert p[0] in multiset(keys);
  }

  /** The choices that make the shuffle produce the ordering `p`. */
  ghost function PicksFor<K>(keys: seq<K>, p: seq<K>): (picks: seq<nat>)
    requires multiset(p) == multiset(keys)
    decreases |keys|
  {
    if keys == [] then []
    else
      PermutationHead(keys, p);
      var i := IndexIn(keys, p[0]);
      RemoveAtMultiset(keys, i);
      RemoveAtMultiset(p, 0);
      [i] + PicksFor(RemoveAt(keys, i), RemoveAt(p, 0))
  }

  /** The shuffle outputs only input keys. */
  lemma {:induction false} ShuffledKeys<K>(keys: seq<K>, picks: seq<nat>)
    ensures forall i | 0 <= i < |Shuffle(keys, picks)| :: Shuffle(keys, picks)[i] in keys
  {
    var r := Shuffle(keys, picks);
    ShufflePermutes(keys, picks);
    forall i | 0 <= i < |r| ensures r[i] in keys {
      assert r[i] in multiset(r);
    }
  }

  /** One step of the shuffle when the next choice is position `i`. */
  lemma {:induction false} ShuffleStep<K>(keys: seq<K>, i: nat, more: seq<nat>)
    requires i < |keys|
    ensures Shuffle(keys, [i] + more) == [keys[i]] + Shuffle(RemoveAt(keys, i), more)
  {
    assert ([i] + more)[0] == i && ([i] + more)[1..] == more;
    assert Choice([i] + more, |keys|) == i;
  }

  /** The first choice `PicksFor` makes, and the reordering left for the rest. */
  lemma {:induction false} PicksForStep<K>(keys: seq<K>, p: seq<K>)
    requires multiset(p) == multiset(keys) && keys != []
    ensures |p| == |keys| && p[0] in keys
    ensures var i, tail := IndexIn(keys, p[0]), RemoveAt(p, 0);
      && multiset(tail) == multiset(RemoveAt(keys, i))
      && PicksFor(keys, p) == [i] + PicksFor(RemoveAt(keys, i), tail)
      && p == [p[0]] + tail
  {
    PermutationHead(keys, p);
    var i := IndexIn(keys, p[0]);
    RemoveAtMultiset(keys, i);
    RemoveAtMultiset(p, 0);
    assert RemoveAt(p, 0) == p[1..];
  }

  /** Every ordering of the keys is the outcome of some choice of `picks`. */
  lemma {:induction false} ShuffleReachesEvery<K>(keys: seq<K>, p: seq<K>)
    requires multiset(p) == multiset(keys)
    ensures Shuffle(keys, PicksFor(keys, p)) == p
    decreases |keys|
  {
    if keys == [] {
      assert |p| == |multiset(p)| == 0;
    } else {
      PicksForStep(keys, p);
      var i := IndexIn(keys, p[0]);
      var rest, tail := RemoveAt(keys, i), RemoveAt(p, 0);
      ShuffleReachesEvery(rest, tail);
      ShuffleStep(keys, i, PicksFor(rest, tail));
    }
  }

  /** `problemsToSelect || 3`. */
  function SelectCount(problemsToSelect: Option<int>): int {
    NumberOr(problemsToSelect, 3)
  }

  /** The end index that `slice(0, end)` uses on an array of length `len`. */
  function SliceEnd(len: nat, end: int): (r: nat)
    ensures r <= len
    ensures end >= 0 ==> r <= end
  {
    if end < 0 then (if len + end > 0 then len + end else 0)
    else if end < len then end else len
  }

  /** `shuffledTypes.slice(0, problemsToSelect || 3)`. */
  function SelectedTypes<T(==), K(==)>(tasks: seq<T>, kind: T -> K, problemsToSelect: Option<int>, picks: seq<nat>)
    : seq<K>
  {
    var keys := GroupByType(tasks, kind).keys;
    Shuffle(keys, picks)[..SliceEnd(|keys|, SelectCount(problemsToSelect))]
  }

  /**
   * The kept types are as many as `slice` keeps of the distinct types, they
   * are pairwise different, and each has a group.
   */
  lemma {:induction false} SelectedTypesSpec<T, K>(
    tasks: seq<T>, kind: T -> K, problemsToSelect: Option<int>, picks: seq<nat>)
    ensures var r := SelectedTypes(tasks, kind, problemsToSelect, picks);
      && |r| == SliceEnd(|DistinctTypes(tasks, kind)|, SelectCount(problemsToSelect))
      && Distinct(r)
      && forall i | 0 <= i < |r| :: r[i] in GroupByType(tasks, kind).members
  {
    var g := GroupByType(tasks, kind);
    var s := Shuffle(g.keys, picks);
    var r := SelectedTypes(tasks, kind, problemsToSelect, picks);
    assert r == s[..SliceEnd(|g.keys|, SelectCount(problemsToSelect))];
    GroupByTypeSpec(tasks, kind);
    KeysAreDistinctTypes(tasks, kind);
    ShuffleDistinct(g.keys, picks);
    ShuffledKeys(g.keys, picks);
    forall i, j | 0 <= i < j < |r| ensures r[i] != r[j] {
      assert r[i] == s[i] && r[j] == s[j];
    }
    forall i | 0 <= i < |r| ensures r[i] in g.members {
      assert r[i] == s[i];
    }
  }

  /** `Math.floor(Math.random() * length)` with `Math.random()` equal to `u`. */
  function PickIndex(u: real, len: nat): (i: int)
    requires 0.0 <= u < 1.0 && len > 0
    ensures 0 <= i < len
  {
    var x := u * len as real;
    ProductBelow(u, len as real, x);
    var i := x.Floor;
    assert 0 <= i < len by {
      assert i as real <= x < len as real;
    }
    i
  }

  /** A fraction in [0, 1) of a positive number is below that number. */
  lemma {:induction false} ProductBelow(u: real, n: real, x: real)
    requires 0.0 <= u < 1.0 && n > 0.0 && x == u * n
    ensures 0.0 <= x < n
  {
    var v := 1.0 - u;
    assert v * n > 0.0;
    assert n - u * n == v * n;
  }

  /** Every position of a group can be drawn. */
  lemma {:induction false} PickIndexReachesEvery(len: nat, j: nat)
    requires j < len
    ensures exists u :: 0.0 <= u < 1.0 && PickIndex(u, len) == j
  {
    var u := j as real / len as real;
    assert u * len as real == j as real;
    assert PickIndex(u, len) == j;
  }

  /** One task of a nonempty group: `tasksInType[Math.floor(Math.random() * tasksInType.length)]`. */
  function PickOne<T>(group: seq<T>, u: real): (t: T)
    requires group != [] && 0.0 <= u < 1.0
    ensures t in group
  {
    group[PickIndex(u, |group|)]
  }

  /** `pickTasks()`: one task from each selected type, the i-th drawn with `draw(i)`. */
  function PickTasks<T(==), K(==)>(
    tasks: seq<T>, kind: T -> K, problemsToSelect: Option<int>, picks: seq<nat>, draw: nat -> real)
    : seq<T>
    requires forall i :: 0.0 <= draw(i) < 1.0
  {
    var g := GroupByType(tasks, kind);
    var types := SelectedTypes(tasks, kind, problemsToSelect, picks);
    SelectedTypesSpec(tasks, kind, problemsToSelect, picks);
    GroupByTypeSpec(tasks, kind);
    seq(|types|, i requires 0 <= i < |types| => PickOne(g.members[types[i]], draw(i)))
  }

  /**
   * `pickTasks` returns min(N, number of distinct types) tasks for a positive
   * N = `problemsToSelect || 3` (the count `slice` gives in general), each a
   * task of the bank whose type is the selected type at its position, so
   * their types are pairwise different.
   */
  lemma {:induction false} PickTasksSpec<T, K>(
    tasks: seq<T>, kind: T -> K, problemsToSelect: Option<int>, picks: seq<nat>, draw: nat -> real)
    requires forall i :: 0.0 <= draw(i) < 1.0
    ensures var r := PickTasks(tasks, kind, problemsToSelect, picks, draw);
      && |r| == SliceEnd(|DistinctTypes(tasks, kind)|, SelectCount(problemsToSelect))
      && (var n, d := SelectCount(problemsToSelect), |DistinctTypes(tasks, kind)|;
          n > 0 ==> |r| == if n < d then n else d)
      && (forall i | 0 <= i < |r| :: r[i] in tasks)
      && (var types := SelectedTypes(tasks, kind, problemsToSelect, picks);
          |r| == |types| && forall i | 0 <= i < |r| :: kind(r[i]) == types[i])
      && (forall i, j | 0 <= i < j < |r| :: kind(r[i]) != kind(r[j]))
  {
    var g := GroupByType(tasks, kind);
    var types := SelectedTypes(tasks, kind, problemsToSelect, picks);
    var r := PickTasks(tasks, kind, problemsToSelect, picks, draw);
    SelectedTypesSpec(tasks, kind, problemsToSelect, picks);
    GroupByTypeSpec(tasks, kind);
    forall i | 0 <= i < |r| ensures r[i] in tasks && kind(r[i]) == types[i] {
      var group := g.members[types[i]];
      assert r[i] in group;
      OfTypeMembers(tasks, kind, types[i], r[i]);
    }
  }

  /** A bank of one task yields that task, whatever the randomness. */
  lemma {:induction false} OneTask<T, K>(t: T, kind: T -> K, picks: seq<nat>, draw: nat -> real)
    requires forall i :: 0.0 <= draw(i) < 1.0
    ensures PickTasks([t], kind, None, picks, draw) == [t]
  {
    var k := kind(t);
    assert [t][..0] == [];
    assert GroupByType([t], kind) == Grouping([k], map[k := [t]]);
    assert Shuffle([k], picks) == [k];
    assert SelectedTypes([t], kind, None, picks) == [k];
  }
}
