/**
 * `TinyLRU` of the refactoring unit `tasks/py/r04_cache`: a dictionary of
 * entries together with a recency list of its keys, oldest first. Reading or
 * writing a key moves it to the most-recent end; inserting a new key into a
 * bounded cache evicts from the oldest end until the cache fits.
 *
 * The methods of the class are stated against value-level functions on a
 * `State` (entries and recency list), and what the cache promises is proved
 * about those functions.
 */
module Lru {

  datatype Option<T> = None | Some(value: T)

  /** The two fields the methods change: `_data` and `_order`. */
  datatype State<K, V> = State(data: map<K, V>, order: seq<K>)

  /** No key occurs twice: the first is not repeated later, and the rest has no duplicates either. */
  predicate NoDup<K(==)>(s: seq<K>)
  {
    s == [] || (s[0] !in s[1..] && NoDup(s[1..]))
  }

  /** The cache invariant: the recency list holds each stored key exactly once, and nothing else. */
  predicate Valid<K(==), V>(st: State<K, V>)
  {
    NoDup(st.order) && (forall k :: k in st.data ==> k in st.order) && (forall k :: k in st.order ==> k in st.data)
  }

  /** Python's `list.remove(x)`: the first occurrence of `x` is dropped, the rest keep their order. */
  function RemoveFirst<K(==)>(s: seq<K>, x: K): (r: seq<K>)
    ensures x !in s ==> r == s
    ensures x in s ==> |r| == |s| - 1
    ensures multiset(r) == multiset(s) - multiset{x}
  {
    if s == [] then []
    else
      assert s == [s[0]] + s[1..];
      if s[0] == x then s[1..] else [s[0]] + RemoveFirst(s[1..], x)
  }

  /** `list.remove` cuts out the first occurrence: what precedes it, then what follows it, in order. */
  lemma {:induction false} RemoveFirstSplits<K>(s: seq<K>, x: K, i: nat)
    requires i < |s| && s[i] == x && forall k :: 0 <= k < i ==> s[k] != x
    ensures RemoveFirst(s, x) == s[..i] + s[i + 1..]
  {
    if i == 0 {
      assert s[..0] == [];
    } else {
      var t := s[1..];
      assert forall k :: 0 <= k < i - 1 ==> t[k] == s[k + 1];
      RemoveFirstSplits(t, x, i - 1);
      RemoveFirstSplitsStep(s, x, t, i - 1);
    }
  }

  lemma RemoveFirstSplitsStep<K>(s: seq<K>, x: K, t: seq<K>, j: nat)
    requires s != [] && s[0] != x && t == s[1..] && j < |t|
    requires RemoveFirst(t, x) == t[..j] + t[j + 1..]
    ensures RemoveFirst(s, x) == s[..j + 1] + s[j + 2..]
  {
    assert RemoveFirst(s, x) == [s[0]] + RemoveFirst(t, x);
    ConsOfCut(s, t, j);
  }

  lemma ConsOfCut<K>(s: seq<K>, t: seq<K>, j: nat)
    requires s != [] && t == s[1..] && j < |t|
    ensures [s[0]] + (t[..j] + t[j + 1..]) == s[..j + 1] + s[j + 2..]
  {
    assert s[..j + 1] == [s[0]] + t[..j];
    assert s[j + 2..] == t[j + 1..];
  }

  /** `key` moved to the most-recent end of the recency list. */
  function Touch<K(==)>(order: seq<K>, key: K): seq<K>
  {
    (if key in order then RemoveFirst(order, key) else order) + [key]
  }

  /** `get(key)` on the state: a hit refreshes the key, a miss changes nothing. */
  function GetSpec<K(==), V>(st: State<K, V>, key: K): State<K, V>
  {
    if key in st.data then State(st.data, Touch(st.order, key)) else st
  }

  /** The value `get(key, default)` returns. */
  function Lookup<K(==), V>(st: State<K, V>, key: K, default: V): V
  {
    if key in st.data then st.data[key] else default
  }

  /** The eviction loop: drop the oldest key while more than `n` keys are listed. */
  function Evict<K(==), V>(st: State<K, V>, n: nat): State<K, V>
    decreases |st.order|
  {
    if |st.order| <= n then st
    else
      var oldest := st.order[0];
      Evict(State(if oldest in st.data then st.data - {oldest} else st.data, st.order[1..]), n)
  }

  /** `set(key, value)` on the state, for the cache's `maxsize`. */
  function SetSpec<K(==), V>(st: State<K, V>, maxsize: Option<int>, key: K, value: V): State<K, V>
  {
    if key in st.data then State(st.data[key := value], Touch(st.order, key))
    else
      var added := State(st.data[key := value], st.order + [key]);
      if maxsize.Some? && maxsize.value > 0 then Evict(added, maxsize.value) else added
  }

  class TinyLRU<K(==), V> {
    var maxsize: Option<int>
    var data: map<K, V>
    var order: seq<K>

    function Contents(): State<K, V>
      reads this
    {
      State(data, order)
    }

    /** An empty cache; `maxsize` None stands for Python's `maxsize=None`. */
    constructor (maxsize: Option<int>)
      ensures this.maxsize == maxsize && Contents() == State(map[], [])
    {
      this.maxsize := maxsize;
      data := map[];
      order := [];
    }

    method Get(key: K, default: V) returns (v: V)
      modifies this
      ensures v == Lookup(old(Contents()), key, default)
      ensures Contents() == GetSpec(old(Contents()), key) && maxsize == old(maxsize)
    {
      if key in data {
        if key in order {
          order := RemoveFirst(order, key);
        }
        order := order + [key];
        return data[key];
      }
      return default;
    }

    method Set(key: K, value: V)
      modifies this
      ensures Contents() == SetSpec(old(Contents()), maxsize, key, value) && maxsize == old(maxsize)
    {
      ghost var start := Contents();
      if key in data {
        data := data[key := value];
        if key in order {
          order := RemoveFirst(order, key);
        }
        order := order + [key];
        return;
      }
      data := data[key := value];
      order := order + [key];
      if maxsize.Some? && maxsize.value > 0 {
        ghost var target := Evict(Contents(), maxsize.value);
        assert target == SetSpec(start, maxsize, key, value);
        while |order| > maxsize.value
          invariant maxsize == old(maxsize)
          invariant Evict(Contents(), maxsize.value) == target
          decreases |order|
        {
          var oldest := order[0];
          order := order[1..];
          if oldest in data {
            data := data - {oldest};
          }
        }
      }
    }

    method Len() returns (n: nat)
      ensures n == |data|
    {
      n := |data|;
    }
  }

  // ---------------------------------------------------------------------
  // What the cache promises
  // ---------------------------------------------------------------------

  /** The fresh cache satisfies the invariant. */
  lemma EmptyValid<K, V>()
    ensures Valid<K, V>(State(map[], []))
  {
  }

  /** In a valid state the number of entries is the length of the recency list. */
  lemma {:induction false} LenIsOrderLength<K, V>(st: State<K, V>)
    requires Valid(st)
    ensures |st.data| == |st.order|
    decreases |st.order|
  {
    if st.order == [] {
      assert st.data.Keys == {};
    } else {
      var k := st.order[0];
      var rest := State(st.data - {k}, st.order[1..]);
      assert st.order == [k] + rest.order;
      LenIsOrderLength(rest);
    }
  }

  /** `list.remove` keeps every element other than `x`, and adds nothing. */
  lemma {:induction false} RemoveFirstKeeps<K>(s: seq<K>, x: K)
    ensures forall y :: y in RemoveFirst(s, x) ==> y in s
    ensures forall y :: y in s && y != x ==> y in RemoveFirst(s, x)
  {
    if s != [] && s[0] != x {
      RemoveFirstKeeps(s[1..], x);
      assert RemoveFirst(s, x) == [s[0]] + RemoveFirst(s[1..], x);
      assert forall y :: y in s ==> y == s[0] || y in s[1..];
    }
  }

  /** Without duplicates, `list.remove` drops `x` altogether and keeps the list duplicate-free. */
  lemma {:induction false} RemoveFirstNoDup<K>(s: seq<K>, x: K)
    requires NoDup(s)
    ensures NoDup(RemoveFirst(s, x)) && x !in RemoveFirst(s, x)
  {
    if s != [] {
      if s[0] != x {
        RemoveFirstNoDup(s[1..], x);
        var r := RemoveFirst(s[1..], x);
        RemoveFirstKeeps(s[1..], x);
        assert s[0] !in r;
        NoDupCons(s[0], r);
      }
    }
  }

  /** Without duplicates, `list.remove` drops exactly `x` and keeps the list duplicate-free. */
  lemma RemoveFirstMembers<K>(s: seq<K>, x: K)
    requires NoDup(s)
    ensures NoDup(RemoveFirst(s, x))
    ensures forall y :: y in RemoveFirst(s, x) ==> y in s && y != x
    ensures forall y :: y in s && y != x ==> y in RemoveFirst(s, x)
  {
    RemoveFirstKeeps(s, x);
    RemoveFirstNoDup(s, x);
  }

  lemma NoDupCons<K>(x: K, s: seq<K>)
    requires NoDup(s) && x !in s
    ensures NoDup([x] + s)
  {
    assert ([x] + s)[1..] == s;
  }

  lemma {:induction false} NoDupSnoc<K>(s: seq<K>, x: K)
    requires NoDup(s) && x !in s
    ensures NoDup(s + [x])
  {
    if s == [] {
      assert [x][1..] == [];
    } else {
      assert (s + [x])[1..] == s[1..] + [x];
      NoDupSnoc(s[1..], x);
    }
  }

  /** Moving a listed key to the end keeps the same keys, once each, and the others in order. */
  lemma TouchMembers<K>(order: seq<K>, key: K)
    requires NoDup(order) && key in order
    ensures NoDup(Touch(order, key)) && Touch(order, key) == RemoveFirst(order, key) + [key]
    ensures |Touch(order, key)| == |order|
    ensures forall y :: y in Touch(order, key) ==> y in order
    ensures forall y :: y in order ==> y in Touch(order, key)
  {
    RemoveFirstMembers(order, key);
    var r := RemoveFirst(order, key);
    var t := Touch(order, key);
    assert t == r + [key];
    NoDupSnoc(r, key);
    forall y ensures y in t <==> y in order {
      assert y in t <==> y in r || y == key;
    }
  }

  /**
   * Touching a stored key keeps the invariant and the set of keys, puts the
   * key at the most-recent end, and keeps the other keys in their order.
   */
  lemma TouchValid<K, V>(st: State<K, V>, key: K)
    requires Valid(st) && key in st.data
    ensures Valid(State(st.data, Touch(st.order, key)))
    ensures Touch(st.order, key) == RemoveFirst(st.order, key) + [key]
    ensures |Touch(st.order, key)| == |st.order|
  {
    TouchMembers(st.order, key);
  }

  /** A `get` hit returns the stored value, keeps the entries, and makes the key the most recent. */
  lemma GetHit<K, V>(st: State<K, V>, key: K, default: V)
    requires Valid(st) && key in st.data
    ensures var st' := GetSpec(st, key);
      && Lookup(st, key, default) == st.data[key]
      && Valid(st') && st'.data == st.data
      && |st'.order| == |st.order| && st'.order[|st'.order| - 1] == key
  {
    TouchValid(st, key);
  }

  /** A `get` miss returns the default and changes nothing. */
  lemma GetMiss<K, V>(st: State<K, V>, key: K, default: V)
    requires key !in st.data
    ensures Lookup(st, key, default) == default && GetSpec(st, key) == st
  {
  }

  /** `set` on a stored key updates its value and refreshes it, with no eviction and no change of size. */
  lemma SetExisting<K, V>(st: State<K, V>, maxsize: Option<int>, key: K, value: V)
    requires Valid(st) && key in st.data
    ensures var st' := SetSpec(st, maxsize, key, value);
      && Valid(st') && st'.data == st.data[key := value] && st'.data.Keys == st.data.Keys
      && |st'.order| == |st.order| && st'.order[|st'.order| - 1] == key
  {
    TouchValid(st, key);
  }

  /**
   * Eviction keeps the `n` most recent keys of the recency list, and removes
   * from the entries exactly the keys it drops.
   */
  lemma {:induction false} EvictKeepsNewest<K, V>(st: State<K, V>, n: nat)
    requires Valid(st)
    ensures var st' := Evict(st, n);
      var drop := if |st.order| <= n then 0 else |st.order| - n;
      && Valid(st') && st'.order == st.order[drop..]
      && (forall k :: k in st'.data <==> k in st.data && k !in st.order[..drop])
      && (forall k :: k in st'.data ==> st'.data[k] == st.data[k])
    decreases |st.order|
  {
    if |st.order| > n {
      var oldest := st.order[0];
      var next := State(st.data - {oldest}, st.order[1..]);
      assert oldest in st.data;
      assert Evict(st, n) == Evict(next, n);
      EvictOldestValid(st);
      EvictKeepsNewest(next, n);
      EvictStep(st, next, Evict(next, n), n);
    } else {
      assert st.order[..0] == [];
    }
  }

  /** Evicting down to `n` keys after dropping the oldest one is evicting down to `n` keys. */
  lemma EvictStep<K, V>(st: State<K, V>, next: State<K, V>, last: State<K, V>, n: nat)
    requires |st.order| > n && next == State(st.data - {st.order[0]}, st.order[1..])
    requires var drop := if |next.order| <= n then 0 else |next.order| - n;
      && Valid(last) && last.order == next.order[drop..]
      && (forall k :: k in last.data <==> k in next.data && k !in next.order[..drop])
      && (forall k :: k in last.data ==> last.data[k] == next.data[k])
    ensures var drop := if |st.order| <= n then 0 else |st.order| - n;
      && Valid(last) && last.order == st.order[drop..]
      && (forall k :: k in last.data <==> k in st.data && k !in st.order[..drop])
      && (forall k :: k in last.data ==> last.data[k] == st.data[k])
  {
    DropOneMore(st.order, |st.order| - n);
  }

  /** Dropping the oldest key, with its entry, keeps the invariant. */
  lemma EvictOldestValid<K, V>(st: State<K, V>)
    requires Valid(st) && st.order != []
    ensures Valid(State(st.data - {st.order[0]}, st.order[1..]))
  {
    assert st.order == [st.order[0]] + st.order[1..];
  }

  /** Dropping `drop` keys is dropping the first and then `drop - 1` more. */
  lemma DropOneMore<K>(order: seq<K>, drop: nat)
    requires 0 < drop <= |order|
    ensures order[1..][drop - 1..] == order[drop..]
    ensures forall k :: k in order[..drop] <==> k == order[0] || k in order[1..][..drop - 1]
  {
    assert order[..drop] == [order[0]] + order[1..][..drop - 1];
  }

  /**
   * `set` on a new key in a cache bounded by `maxsize` > 0 keeps the
   * invariant, stores the key as the most recent entry, and evicts the
   * oldest keys until at most `maxsize` remain: the list keeps the newest
   * `maxsize` keys.
   */
  lemma SetNewBounded<K, V>(st: State<K, V>, maxsize: int, key: K, value: V)
    requires Valid(st) && key !in st.data && maxsize > 0
    ensures var st' := SetSpec(st, Some(maxsize), key, value);
      var full := st.order + [key];
      var drop := if |full| <= maxsize then 0 else |full| - maxsize;
      && Valid(st') && st'.order == full[drop..]
      && key in st'.data && st'.data[key] == value
      && |st'.data| == (if |st.data| + 1 <= maxsize then |st.data| + 1 else maxsize)
  {
    AppendValid(st, key, value);
    LenIsOrderLength(st);
    EvictAppended(State(st.data[key := value], st.order + [key]), key, value, maxsize);
  }

  /**
   * Evicting down to `n` > 0 keys keeps the invariant and the newest key
   * with its value, and leaves `n` keys, or all of them if there were fewer.
   */
  lemma EvictAppended<K, V>(added: State<K, V>, key: K, value: V, n: nat)
    requires Valid(added) && |added.order| > 0 && added.order[|added.order| - 1] == key
    requires key in added.data && added.data[key] == value && n > 0
    ensures var st' := Evict(added, n);
      var drop := if |added.order| <= n then 0 else |added.order| - n;
      && Valid(st') && st'.order == added.order[drop..]
      && key in st'.data && st'.data[key] == value
      && |st'.data| == (if |added.order| <= n then |added.order| else n)
  {
    EvictKeepsNewest(added, n);
    var drop := if |added.order| <= n then 0 else |added.order| - n;
    LastKept(added.order, drop);
    LenIsOrderLength(Evict(added, n));
  }

  /** Appending a new key, with its entry, keeps the invariant. */
  lemma AppendValid<K, V>(st: State<K, V>, key: K, value: V)
    requires Valid(st) && key !in st.data
    ensures Valid(State(st.data[key := value], st.order + [key]))
  {
    NoDupSnoc(st.order, key);
  }

  /** In a list without duplicates, cutting fewer than all elements off the front keeps the last one. */
  lemma {:induction false} LastKept<K>(s: seq<K>, drop: nat)
    requires NoDup(s) && drop < |s|
    ensures s[|s| - 1] in s[drop..] && s[|s| - 1] !in s[..drop]
  {
    assert s[drop..][|s| - 1 - drop] == s[|s| - 1];
    if drop > 0 {
      assert s[1..][|s| - 2] == s[|s| - 1];
      assert s[..drop] == [s[0]] + s[1..][..drop - 1];
      LastKept(s[1..], drop - 1);
    }
  }

  /** With `maxsize` None or not positive, a new key is appended and nothing is evicted. */
  lemma SetNewUnbounded<K, V>(st: State<K, V>, maxsize: Option<int>, key: K, value: V)
    requires Valid(st) && key !in st.data && (maxsize.None? || maxsize.value <= 0)
    ensures var st' := SetSpec(st, maxsize, key, value);
      && Valid(st') && st'.data == st.data[key := value] && st'.order == st.order + [key]
      && |st'.data| == |st.data| + 1
  {
    NoDupSnoc(st.order, key);
    LenIsOrderLength(st);
    LenIsOrderLength(SetSpec(st, maxsize, key, value));
  }

  /** Every `set` keeps the invariant and leaves the key stored with the new value, as the most recent key. */
  lemma SetKeepsValid<K, V>(st: State<K, V>, maxsize: Option<int>, key: K, value: V)
    requires Valid(st)
    ensures var st' := SetSpec(st, maxsize, key, value);
      && Valid(st') && key in st'.data && st'.data[key] == value
      && |st'.order| > 0 && st'.order[|st'.order| - 1] == key
  {
    if key in st.data {
      SetExisting(st, maxsize, key, value);
    } else if maxsize.Some? && maxsize.value > 0 {
      SetNewBounded(st, maxsize.value, key, value);
    } else {
      SetNewUnbounded(st, maxsize, key, value);
    }
  }

  // ---------------------------------------------------------------------
  // The documented scenarios
  // ---------------------------------------------------------------------

  /** With room for two, "a" and "b" are both kept: `get` returns 1 and 2. */
  method ExampleSetGet() returns (a: Option<int>, b: Option<int>)
    ensures a == Some(1) && b == Some(2)
  {
    var cache := new TinyLRU<string, Option<int>>(Some(2));
    cache.Set("a", Some(1));
    cache.Set("b", Some(2));
    a := cache.Get("a", None);
    b := cache.Get("b", None);
  }

  /** With room for two, setting "c" evicts the oldest key "a". */
  method ExampleEviction() returns (a: Option<int>, n: nat)
    ensures a == None && n == 2
  {
    var cache := new TinyLRU<string, Option<int>>(Some(2));
    cache.Set("a", Some(1));
    FirstSet();
    cache.Set("b", Some(2));
    SecondSet();
    cache.Set("c", Some(3));
    ThirdSet(cache.Contents());
    a := cache.Get("a", None);
    n := cache.Len();
  }

  /** The first `set` of the scenarios: the empty cache takes "a". */
  lemma FirstSet()
    ensures SetSpec(State(map[], []), Some(2), "a", Some(1)) == State(map["a" := Some(1)], ["a"])
  {
  }

  /** The second `set`: "b" joins "a" without eviction. */
  lemma SecondSet()
    ensures SetSpec(State(map["a" := Some(1)], ["a"]), Some(2), "b", Some(2))
         == State(map["a" := Some(1), "b" := Some(2)], ["a", "b"])
  {
    assert "a" != "b" by { assert "a"[0] != "b"[0]; }
  }

  /** The third `set`: "c" is new, the cache is full, and "a" is evicted. */
  lemma ThirdSet(st: State<string, Option<int>>)
    requires st == SetSpec(State(map["a" := Some(1), "b" := Some(2)], ["a", "b"]), Some(2), "c", Some(3))
    ensures "a" !in st.data && |st.data| == 2
  {
    var before := State(map["a" := Some(1), "b" := Some(2)], ["a", "b"]);
    DistinctKeys();
    assert "c" !in before.data;
    assert NoDup(before.order) by { assert before.order[1..] == ["b"]; }
    LenIsOrderLength(before);
    SetNewBounded(before, 2, "c", Some(3));
    KeptOrder(before.order, "c", st.order);
    assert "a" !in st.order;
  }

  /** The scenario keys are distinct strings. */
  lemma DistinctKeys()
    ensures "a" != "b" && "a" != "c" && "b" != "c"
  {
    assert "a"[0] != "b"[0] && "a"[0] != "c"[0] && "b"[0] != "c"[0];
  }

  /** Evicting the oldest of three keys keeps the last two. */
  lemma KeptOrder(order: seq<string>, key: string, kept: seq<string>)
    requires order == ["a", "b"] && kept == (order + [key])[1..]
    ensures kept == ["b", key]
  {
  }
}
