/**
 * Order-preserving duplicate removal (list_ops.py).
 *
 * Both entry points walk the input once, keep a set `seen` of the keys met so
 * far and append an element to the result exactly when its key is new. The
 * result is specified by the ghost function `Dedup`, which processes the input
 * left to right just as the loop does, and `Dedup` is related by lemmas to an
 * independent description: the subsequence of first occurrences.
 */
module ListOps {
  import opened Optional

  /** A hashable Python value: None, an int, a str, or a tuple of hashable values. */
  datatype Scalar = NoneValue | Int(i: int) | Str(s: string) | Tuple(items: seq<Scalar>)

  /** An element of the input list: a hashable value, a list, or a dict with str keys. */
  datatype Element = Atom(value: Scalar) | List(items: seq<Scalar>) | Dict(entries: map<string, Scalar>)

  /**
   * The key `remove_duplicates` compares elements by: a list becomes the tuple
   * of its items, a dict the (sorted) collection of its items, anything else
   * itself.
   */
  datatype Key = Hashed(value: Scalar) | SortedItems(entries: map<string, Scalar>)

  /** What the caller passes: `None`, some non-list object (by its type name), or a list. */
  datatype Arg = NoneArg | NotAList(typeName: string) | ListArg(items: seq<Element>)

  datatype Error = ValueError(message: string) | TypeError(message: string)

  /** A returned value or a raised exception. */
  datatype Outcome<T> = Ok(value: T) | Raised(error: Error)

  /** The message of the ValueError raised for a `None` argument. */
  function NoneMessage(): string {
    "Input list cannot be None"
  }

  function NotAListMessage(typeName: string): string {
    "Expected list, got " + typeName
  }

  function ElementKey(e: Element): Key {
    match e
    case Atom(v) => Hashed(v)
    case List(xs) => Hashed(Tuple(xs))
    case Dict(m) => SortedItems(m)
  }

  /** The key `remove_duplicates_simple` compares by: the element itself. */
  function SelfKey(e: Element): Element {
    e
  }

  /** The message Python's `set` gives for an element it cannot hash. */
  function UnhashableMessage(e: Element): string {
    if e.List? then "unhashable type: 'list'" else "unhashable type: 'dict'"
  }

  // ---------------------------------------------------------------------------
  // Specification

  ghost function KeysOf<T, K>(s: seq<T>, key: T -> K): set<K> {
    set x | x in s :: key(x)
  }

  /** No two elements of `s` share a key. */
  ghost predicate NoRepeatedKeys<T, K>(s: seq<T>, key: T -> K) {
    forall i, j :: 0 <= i < j < |s| ==> key(s[i]) != key(s[j])
  }

  /**
   * `s` with every element dropped whose key occurs earlier, computed left to
   * right: the last element is kept exactly when its key is not among the keys
   * kept from the prefix before it.
   */
  ghost function Dedup<T, K>(s: seq<T>, key: T -> K): (r: seq<T>)
    ensures |r| <= |s|
  {
    if s == [] then []
    else
      var p := Dedup(s[..|s| - 1], key);
      if key(s[|s| - 1]) in KeysOf(p, key) then p else p + [s[|s| - 1]]
  }

  /** Position `i` holds the first element of `s` with its key. */
  ghost predicate IsFirst<T, K>(s: seq<T>, key: T -> K, i: nat)
    requires i < |s|
  {
    forall j :: 0 <= j < i ==> key(s[j]) != key(s[i])
  }

  /** The elements at first-occurrence positions `i..`, in input order. */
  ghost function FirstsFrom<T, K>(s: seq<T>, key: T -> K, i: nat): seq<T>
    decreases |s| - i
  {
    if i >= |s| then []
    else (if IsFirst(s, key, i) then [s[i]] else []) + FirstsFrom(s, key, i + 1)
  }

  /** The position of the first element that cannot be hashed, if any. */
  function FirstUnhashable(s: seq<Element>): (r: Option<nat>)
    ensures r.Some? ==> r.value < |s| && !s[r.value].Atom? && forall j :: 0 <= j < r.value ==> s[j].Atom?
    ensures r.None? ==> forall j :: 0 <= j < |s| ==> s[j].Atom?
  {
    if s == [] then None
    else if !s[0].Atom? then Some(0)
    else match FirstUnhashable(s[1..])
      case None => None
      case Some(k) => Some(k + 1)
  }

  /** What `remove_duplicates` returns or raises. */
  ghost function Deduplicated(arg: Arg): (r: Outcome<seq<Element>>)
    ensures r.Ok? <==> arg.ListArg?
    ensures r.Ok? ==> NoRepeatedKeys(r.value, ElementKey) && KeysOf(r.value, ElementKey) == KeysOf(arg.items, ElementKey)
  {
    match arg
    case NoneArg => Raised(ValueError(NoneMessage()))
    case NotAList(t) => Raised(TypeError(NotAListMessage(t)))
    case ListArg(items) =>
      DedupNoRepeatedKeys(items, ElementKey);
      DedupKeys(items, ElementKey);
      Ok(Dedup(items, ElementKey))
  }

  /** What `remove_duplicates_simple` returns or raises. */
  ghost function DeduplicatedSimple(arg: Arg): (r: Outcome<seq<Element>>)
    ensures r.Ok? <==> arg.ListArg? && forall e :: e in arg.items ==> e.Atom?
    ensures r.Ok? ==> NoRepeatedKeys(r.value, SelfKey) && KeysOf(r.value, SelfKey) == KeysOf(arg.items, SelfKey)
  {
    match arg
    case NoneArg => Raised(ValueError(NoneMessage()))
    case NotAList(t) => Raised(TypeError(NotAListMessage(t)))
    case ListArg(items) =>
      match FirstUnhashable(items)
      case Some(k) => Raised(TypeError(UnhashableMessage(items[k])))
      case None =>
        DedupNoRepeatedKeys(items, SelfKey);
        DedupKeys(items, SelfKey);
        Ok(Dedup(items, SelfKey))
  }

  // ---------------------------------------------------------------------------
  // The two entry points

  /** remove_duplicates: validate the argument, then one pass with a `seen` set of keys. */
  method RemoveDuplicates(arg: Arg) returns (r: Outcome<seq<Element>>)
    ensures r == Deduplicated(arg)
    ensures arg.NoneArg? <==> r == Raised(ValueError(NoneMessage()))
    ensures arg.NotAList? <==> r.Raised? && r.error.TypeError?
  {
    match arg
    case NoneArg =>
      return Raised(ValueError(NoneMessage()));
    case NotAList(t) =>
      return Raised(TypeError(NotAListMessage(t)));
    case ListArg(items) =>
      if |items| == 0 {
        return Ok([]);
      }
      var seen: set<Key> := {};
      var unique: seq<Element> := [];
      for i := 0 to |items|
        invariant unique == Dedup(items[..i], ElementKey)
        invariant seen == KeysOf(unique, ElementKey)
      {
        var itemKey := ElementKey(items[i]);
        assert items[..i + 1][..i] == items[..i];
        if itemKey !in seen {
          KeysOfSnoc(unique, items[i], ElementKey);
          seen := seen + {itemKey};
          unique := unique + [items[i]];
        }
      }
      assert items[..|items|] == items;
      return Ok(unique);
  }

  /**
   * remove_duplicates_simple: the same pass, comparing elements directly; a
   * list or dict element makes the membership test raise TypeError.
   */
  method RemoveDuplicatesSimple(arg: Arg) returns (r: Outcome<seq<Element>>)
    ensures r == DeduplicatedSimple(arg)
    ensures arg.NoneArg? <==> r == Raised(ValueError(NoneMessage()))
  {
    match arg
    case NoneArg =>
      return Raised(ValueError(NoneMessage()));
    case NotAList(t) =>
      return Raised(TypeError(NotAListMessage(t)));
    case ListArg(items) =>
      if |items| == 0 {
        return Ok([]);
      }
      var seen: set<Element> := {};
      var unique: seq<Element> := [];
      for i := 0 to |items|
        invariant forall j :: 0 <= j < i ==> items[j].Atom?
        invariant unique == Dedup(items[..i], SelfKey)
        invariant seen == KeysOf(unique, SelfKey)
      {
        var item := items[i];
        if !item.Atom? {
          return Raised(TypeError(UnhashableMessage(item)));
        }
        assert items[..i + 1][..i] == items[..i];
        if item !in seen {
          KeysOfSnoc(unique, item, SelfKey);
          seen := seen + {item};
          unique := unique + [item];
        }
      }
      assert items[..|items|] == items;
      return Ok(unique);
  }

  // ---------------------------------------------------------------------------
  // Lemmas

  lemma KeysOfSnoc<T, K>(s: seq<T>, x: T, key: T -> K)
    ensures KeysOf(s + [x], key) == KeysOf(s, key) + {key(x)}
  {
    assert forall y :: y in s + [x] <==> y in s || y == x;
  }

  /** Every kept element comes from the input, and the kept keys are exactly the input's keys. */
  lemma {:induction false} DedupKeys<T, K>(s: seq<T>, key: T -> K)
    ensures forall x :: x in Dedup(s, key) ==> x in s
    ensures KeysOf(Dedup(s, key), key) == KeysOf(s, key)
  {
    if s != [] {
      var p, x := s[..|s| - 1], s[|s| - 1];
      assert s == p + [x];
      DedupKeys(p, key);
      KeysOfSnoc(p, x, key);
      KeysOfSnoc(Dedup(p, key), x, key);
    }
  }

  /** The result never holds two elements with the same key. */
  lemma {:induction false} DedupNoRepeatedKeys<T, K>(s: seq<T>, key: T -> K)
    ensures NoRepeatedKeys(Dedup(s, key), key)
  {
    if s != [] {
      var p, x := s[..|s| - 1], s[|s| - 1];
      DedupNoRepeatedKeys(p, key);
      var d := Dedup(p, key);
      if key(x) !in KeysOf(d, key) {
        var r := d + [x];
        forall i, j | 0 <= i < j < |r| ensures key(r[i]) != key(r[j]) {
          if j == |d| {
            assert r[i] in d;
          }
        }
      }
    }
  }

  /** An input without repeated keys comes back unchanged. */
  lemma {:induction false} DedupDistinctUnchanged<T, K>(s: seq<T>, key: T -> K)
    requires NoRepeatedKeys(s, key)
    ensures Dedup(s, key) == s
  {
    if s != [] {
      var p, x := s[..|s| - 1], s[|s| - 1];
      assert s == p + [x];
      DedupDistinctUnchanged(p, key);
      DedupKeys(p, key);
      assert key(x) !in KeysOf(p, key) by {
        forall y | y in p ensures key(y) != key(x) {
          var k :| 0 <= k < |p| && p[k] == y;
          assert key(s[k]) != key(s[|s| - 1]);
        }
      }
    }
  }

  /** Removing duplicates twice is the same as removing them once. */
  lemma DedupIdempotent<T, K>(s: seq<T>, key: T -> K)
    ensures Dedup(Dedup(s, key), key) == Dedup(s, key)
  {
    DedupNoRepeatedKeys(s, key);
    DedupDistinctUnchanged(Dedup(s, key), key);
  }

  lemma IsFirstSnoc<T, K>(s: seq<T>, x: T, key: T -> K, i: nat)
    requires i < |s|
    ensures IsFirst(s + [x], key, i) == IsFirst(s, key, i)
  {
    assert forall j :: 0 <= j <= i ==> (s + [x])[j] == s[j];
  }

  lemma {:induction false} FirstsFromSnoc<T, K>(s: seq<T>, x: T, key: T -> K, i: nat)
    requires i <= |s|
    ensures FirstsFrom(s + [x], key, i)
         == FirstsFrom(s, key, i) + (if IsFirst(s + [x], key, |s|) then [x] else [])
    decreases |s| - i
  {
    var t := s + [x];
    var last := if IsFirst(t, key, |s|) then [x] else [];
    if i == |s| {
      assert FirstsFrom(t, key, i + 1) == [];
      assert FirstsFrom(t, key, i) == last + [];
    } else {
      FirstsFromSnoc(s, x, key, i + 1);
      IsFirstSnoc(s, x, key, i);
      var head := if IsFirst(s, key, i) then [s[i]] else [];
      assert t[i] == s[i];
      calc {
        FirstsFrom(t, key, i);
        head + FirstsFrom(t, key, i + 1);
        head + (FirstsFrom(s, key, i + 1) + last);
        (head + FirstsFrom(s, key, i + 1)) + last;
        FirstsFrom(s, key, i) + last;
      }
    }
  }

  /** The result is exactly the subsequence of first occurrences, in input order. */
  lemma {:induction false} DedupIsFirstOccurrences<T, K>(s: seq<T>, key: T -> K)
    ensures Dedup(s, key) == FirstsFrom(s, key, 0)
  {
    if s != [] {
      var p, x := s[..|s| - 1], s[|s| - 1];
      assert s == p + [x];
      DedupIsFirstOccurrences(p, key);
      FirstsFromSnoc(p, x, key, 0);
      DedupKeys(p, key);
      if key(x) in KeysOf(p, key) {
        var y :| y in p && key(y) == key(x);
        var k :| 0 <= k < |p| && p[k] == y;
        assert key(s[k]) == key(s[|p|]);
        assert !IsFirst(s, key, |p|);
      } else {
        forall j | 0 <= j < |p| ensures key(s[j]) != key(s[|p|]) {
          assert s[j] in p;
        }
      }
    }
  }

  /** Two key functions that agree on which input elements are equal remove the same elements. */
  lemma {:induction false} DedupSameEquivalence<T, K1, K2>(s: seq<T>, k1: T -> K1, k2: T -> K2)
    requires forall i, j :: 0 <= i < |s| && 0 <= j < |s| ==> (k1(s[i]) == k1(s[j]) <==> k2(s[i]) == k2(s[j]))
    ensures Dedup(s, k1) == Dedup(s, k2)
  {
    if s != [] {
      var p, x := s[..|s| - 1], s[|s| - 1];
      DedupSameEquivalence(p, k1, k2);
      DedupKeys(p, k1);
      DedupKeys(p, k2);
      if k1(x) in KeysOf(p, k1) {
        var y :| y in p && k1(y) == k1(x);
        var j :| 0 <= j < |p| && p[j] == y;
        assert k2(s[j]) == k2(s[|s| - 1]);
      }
      if k2(x) in KeysOf(p, k2) {
        var y :| y in p && k2(y) == k2(x);
        var j :| 0 <= j < |p| && p[j] == y;
        assert k1(s[j]) == k1(s[|s| - 1]);
      }
    }
  }

  /** On a list without list or dict elements the two entry points agree. */
  lemma SimpleAgreesWithKeyed(items: seq<Element>)
    requires forall e :: e in items ==> e.Atom?
    ensures DeduplicatedSimple(ListArg(items)) == Deduplicated(ListArg(items))
  {
    assert forall j :: 0 <= j < |items| ==> items[j] in items;
    DedupSameEquivalence(items, SelfKey, ElementKey);
  }

  /** A list is keyed by the tuple of its items: equal items, equal keys, and the tuple element shares the key. */
  lemma ListKeyIsItsTuple(a: seq<Scalar>, b: seq<Scalar>)
    ensures ElementKey(List(a)) == ElementKey(List(b)) <==> a == b
    ensures ElementKey(List(a)) == ElementKey(Atom(Tuple(a)))
  {
  }

  /** [3, 1, 2, 1, 3, 2] becomes [3, 1, 2]. */
  lemma PreserveOrderExample()
    ensures Dedup([Atom(Int(3)), Atom(Int(1)), Atom(Int(2)), Atom(Int(1)), Atom(Int(3)), Atom(Int(2))], ElementKey)
         == [Atom(Int(3)), Atom(Int(1)), Atom(Int(2))]
  {
    var s := [Atom(Int(3)), Atom(Int(1)), Atom(Int(2)), Atom(Int(1)), Atom(Int(3)), Atom(Int(2))];
    var r := [Atom(Int(3)), Atom(Int(1)), Atom(Int(2))];
    assert s[..3] == r;
    DedupDistinctUnchanged(r, ElementKey);
    assert s[..4][..3] == r;
    assert s[..5][..4] == s[..4];
    assert s[..6][..5] == s[..5];
    assert s == s[..6];
  }

  /** [[1, 2], [3, 4], [1, 2], [5, 6]] becomes [[1, 2], [3, 4], [5, 6]]: nested lists are keyed by their items. */
  lemma NestedListExample()
    ensures Dedup([List([Int(1), Int(2)]), List([Int(3), Int(4)]), List([Int(1), Int(2)]), List([Int(5), Int(6)])], ElementKey)
         == [List([Int(1), Int(2)]), List([Int(3), Int(4)]), List([Int(5), Int(6)])]
  {
    var s := [List([Int(1), Int(2)]), List([Int(3), Int(4)]), List([Int(1), Int(2)]), List([Int(5), Int(6)])];
    var r := [List([Int(1), Int(2)]), List([Int(3), Int(4)])];
    assert s[..2] == r;
    DedupDistinctUnchanged(r, ElementKey);
    assert s[..3][..2] == r;
    assert s[..4][..3] == s[..3];
    assert s == s[..4];
  }

  /** [{"a": 1}, {"b": 2}, {"a": 1}, {"c": 3}] becomes [{"a": 1}, {"b": 2}, {"c": 3}]. */
  lemma DictionaryExample()
    ensures Dedup([Dict(map["a" := Int(1)]), Dict(map["b" := Int(2)]), Dict(map["a" := Int(1)]), Dict(map["c" := Int(3)])], ElementKey)
         == [Dict(map["a" := Int(1)]), Dict(map["b" := Int(2)]), Dict(map["c" := Int(3)])]
  {
    var s := [Dict(map["a" := Int(1)]), Dict(map["b" := Int(2)]), Dict(map["a" := Int(1)]), Dict(map["c" := Int(3)])];
    var r := [Dict(map["a" := Int(1)]), Dict(map["b" := Int(2)])];
    assert "a" !in map["b" := Int(2)];
    assert s[..2] == r;
    DedupDistinctUnchanged(r, ElementKey);
    assert s[..3][..2] == r;
    assert s[..4][..3] == s[..3];
    assert "c" !in map["a" := Int(1)] && "c" !in map["b" := Int(2)];
    assert s == s[..4];
  }
}
