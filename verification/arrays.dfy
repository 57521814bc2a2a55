/**
 * Key-based array helpers shared by the index builder: `some(x => key(x) === k)`,
 * `find(x => key(x) === k)` and the "push unless an element with the same key is already
 * there" step, together with the facts about repeating that step over a whole sequence.
 */
module Arrays {
  import opened Wrappers

  /** `s.some(y => key(y) === k)`. */
  predicate HasKey<T, K(==)>(s: seq<T>, key: T -> K, k: K) {
    exists i :: 0 <= i < |s| && key(s[i]) == k
  }

  /** `s.find(y => key(y) === k)`: the leftmost element with key `k`. */
  function FirstWithKey<T, K(==)>(s: seq<T>, key: T -> K, k: K): (r: Option<T>)
    ensures r.Some? <==> HasKey(s, key, k)
    ensures r.Some? ==> r.value in s && key(r.value) == k
    ensures r.Some? ==> exists i :: 0 <= i < |s| && s[i] == r.value && forall j :: 0 <= j < i ==> key(s[j]) != k
  {
    if |s| == 0 then None
    else if key(s[0]) == k then Some(s[0])
    else
      var r := FirstWithKey(s[1..], key, k);
      assert HasKey(s, key, k) ==> HasKey(s[1..], key, k) by {
        if HasKey(s, key, k) {
          var i :| 0 <= i < |s| && key(s[i]) == k;
          assert s[1..][i - 1] == s[i];
        }
      }
      assert r.Some? ==> exists i :: 0 <= i < |s| && s[i] == r.value && forall j :: 0 <= j < i ==> key(s[j]) != k by {
        if r.Some? {
          var i :| 0 <= i < |s[1..]| && s[1..][i] == r.value && forall j :: 0 <= j < i ==> key(s[1..][j]) != k;
          assert s[i + 1] == r.value;
          assert forall j :: 0 <= j < i + 1 ==> key(s[j]) != k by {
            forall j | 0 <= j < i + 1 ensures key(s[j]) != k {
              if j > 0 { assert s[j] == s[1..][j - 1]; }
            }
          }
        }
      }
      r
  }

  /** No two elements share a key. */
  ghost predicate KeysUnique<T, K>(s: seq<T>, key: T -> K) {
    forall i, j :: 0 <= i < j < |s| ==> key(s[i]) != key(s[j])
  }

  /** Push `x` unless an element with the same key is already present. */
  function AddUniqueBy<T, K(==)>(acc: seq<T>, x: T, key: T -> K): seq<T> {
    if HasKey(acc, key, key(x)) then acc else acc + [x]
  }

  /** Repeated `AddUniqueBy` over `s`, left to right. */
  function DedupBy<T, K(==)>(s: seq<T>, key: T -> K): seq<T> {
    if |s| == 0 then [] else AddUniqueBy(DedupBy(s[..|s| - 1], key), s[|s| - 1], key)
  }

  /** Deduplicating one more element is one more `AddUniqueBy`. */
  lemma DedupBySnoc<T, K>(s: seq<T>, x: T, key: T -> K)
    ensures DedupBy(s + [x], key) == AddUniqueBy(DedupBy(s, key), x, key)
  {
    assert (s + [x])[..|s|] == s;
  }

  /** Adding an element whose key is already present a second time changes nothing. */
  lemma AddUniqueByTwice<T, K>(acc: seq<T>, x: T, key: T -> K)
    ensures AddUniqueBy(AddUniqueBy(acc, x, key), x, key) == AddUniqueBy(acc, x, key)
  {
    assert (acc + [x])[|acc|] == x;
  }

  /** `find` on an extended sequence looks at the new element only when nothing earlier matched. */
  lemma {:induction false} FirstWithKeySnoc<T, K>(s: seq<T>, x: T, key: T -> K, k: K)
    ensures FirstWithKey(s + [x], key, k) ==
      if HasKey(s, key, k) then FirstWithKey(s, key, k)
      else if key(x) == k then Some(x) else None
    decreases |s|
  {
    if |s| > 0 {
      assert (s + [x])[0] == s[0];
      assert (s + [x])[1..] == s[1..] + [x];
      FirstWithKeySnoc(s[1..], x, key, k);
      if key(s[0]) != k {
        assert HasKey(s, key, k) <==> HasKey(s[1..], key, k) by {
          if HasKey(s, key, k) {
            var i :| 0 <= i < |s| && key(s[i]) == k;
            assert s[1..][i - 1] == s[i];
          }
          if HasKey(s[1..], key, k) {
            var i :| 0 <= i < |s[1..]| && key(s[1..][i]) == k;
            assert s[i + 1] == s[1..][i];
          }
        }
      } else {
        assert HasKey(s, key, k);
      }
    } else {
      assert s + [x] == [x];
    }
  }

  lemma HasKeySnoc<T, K>(s: seq<T>, x: T, key: T -> K, k: K)
    ensures HasKey(s + [x], key, k) <==> HasKey(s, key, k) || key(x) == k
  {
    if HasKey(s, key, k) {
      var i :| 0 <= i < |s| && key(s[i]) == k;
      assert (s + [x])[i] == s[i];
    }
    if HasKey(s + [x], key, k) {
      var i :| 0 <= i < |s + [x]| && key((s + [x])[i]) == k;
      if i < |s| {
        assert (s + [x])[i] == s[i];
      }
    }
    assert (s + [x])[|s|] == x;
  }

  lemma HasKeyMember<T, K>(s: seq<T>, y: T, key: T -> K)
    requires y in s
    ensures HasKey(s, key, key(y))
  {
    var i :| 0 <= i < |s| && s[i] == y;
  }

  /**
   * Deduplicating keeps exactly one element per key (the first one), takes nothing from
   * outside `s`, and loses no key.
   */
  lemma {:induction false} DedupByFacts<T, K>(s: seq<T>, key: T -> K)
    ensures KeysUnique(DedupBy(s, key), key)
    ensures forall y :: y in DedupBy(s, key) ==> y in s
    ensures forall k :: HasKey(DedupBy(s, key), key, k) <==> HasKey(s, key, k)
    ensures forall y :: y in DedupBy(s, key) ==> FirstWithKey(s, key, key(y)) == Some(y)
    decreases |s|
  {
    if |s| > 0 {
      var init, x := s[..|s| - 1], s[|s| - 1];
      assert s == init + [x];
      var d := DedupBy(init, key);
      DedupByFacts(init, key);
      forall k ensures FirstWithKey(s, key, k) ==
        if HasKey(init, key, k) then FirstWithKey(init, key, k)
        else if key(x) == k then Some(x) else None
      {
        FirstWithKeySnoc(init, x, key, k);
      }
      forall k ensures HasKey(s, key, k) <==> HasKey(init, key, k) || key(x) == k {
        HasKeySnoc(init, x, key, k);
      }
      if !HasKey(d, key, key(x)) {
        assert DedupBy(s, key) == d + [x];
        forall y | y in d + [x]
          ensures FirstWithKey(s, key, key(y)) == Some(y)
        {
          if y != x {
            assert y in d;
            HasKeyMember(d, y, key);
            assert key(y) != key(x);
            assert HasKey(init, key, key(y));
            assert FirstWithKey(init, key, key(y)) == Some(y);
          } else {
            assert !HasKey(init, key, key(x));
          }
        }
        forall k ensures HasKey(d + [x], key, k) <==> HasKey(d, key, k) || key(x) == k {
          HasKeySnoc(d, x, key, k);
        }
        forall i, j | 0 <= i < j < |d + [x]|
          ensures key((d + [x])[i]) != key((d + [x])[j])
        {
          if j == |d| {
            assert (d + [x])[i] in d;
          } else {
            assert (d + [x])[i] == d[i] && (d + [x])[j] == d[j];
          }
        }
      } else {
        assert DedupBy(s, key) == d;
        forall y | y in d
          ensures FirstWithKey(s, key, key(y)) == Some(y)
        {
          HasKeyMember(d, y, key);
          assert HasKey(init, key, key(y));
          assert FirstWithKey(init, key, key(y)) == Some(y);
        }
      }
    }
  }
}
