/** The JavaScript array operations the modelled components use:
    `filter` (by element and by index) and `map`. */
module JsArray {

  /** `s.filter(keep)`: the elements that `keep` accepts, in their order. */
  function Filter<T>(s: seq<T>, keep: T -> bool): (r: seq<T>)
    ensures |r| <= |s|
    ensures forall i :: 0 <= i < |r| ==> r[i] in s && keep(r[i])
    ensures forall i :: 0 <= i < |s| && keep(s[i]) ==> s[i] in r
  {
    if s == [] then []
    else (if keep(s[0]) then [s[0]] else []) + Filter(s[1..], keep)
  }

  /** `s.filter((_, i) => keep(i))`: the elements whose position `keep` accepts. */
  function FilterIndex<T>(s: seq<T>, keep: int -> bool): (r: seq<T>)
    ensures |r| <= |s|
  {
    if s == [] then []
    else FilterIndex(s[..|s| - 1], keep) + (if keep(|s| - 1) then [s[|s| - 1]] else [])
  }

  /** `s.map(f)`. */
  function Map<T, U>(s: seq<T>, f: T -> U): (r: seq<U>)
    ensures |r| == |s|
    ensures forall i :: 0 <= i < |s| ==> r[i] == f(s[i])
  {
    seq(|s|, i requires 0 <= i < |s| => f(s[i]))
  }

  lemma {:induction false} FilterConcat<T>(a: seq<T>, b: seq<T>, keep: T -> bool)
    ensures Filter(a + b, keep) == Filter(a, keep) + Filter(b, keep)
  {
    if a == [] {
      assert a + b == b;
    } else {
      assert (a + b)[0] == a[0];
      assert (a + b)[1..] == a[1..] + b;
      FilterConcat(a[1..], b, keep);
    }
  }

  /** Filtering with a test every element passes changes nothing. */
  lemma {:induction false} FilterKeepsAll<T>(s: seq<T>, keep: T -> bool)
    requires forall x :: x in s ==> keep(x)
    ensures Filter(s, keep) == s
  {
    if s != [] {
      FilterKeepsAll(s[1..], keep);
    }
  }

  /** Filtering by index with `i !== index` deletes exactly position `index`,
      and nothing when `index` is out of range. */
  lemma {:induction false} FilterIndexOther<T>(s: seq<T>, index: int)
    ensures FilterIndex(s, i => i != index)
         == if 0 <= index < |s| then s[..index] + s[index + 1..] else s
  {
    if s != [] {
      var init := s[..|s| - 1];
      FilterIndexOther(init, index);
      if 0 <= index < |s| - 1 {
        assert init[..index] + init[index + 1..] + [s[|s| - 1]] == s[..index] + s[index + 1..];
      } else if index == |s| - 1 {
        assert init == s[..index];
      } else {
        assert init + [s[|s| - 1]] == s;
      }
    }
  }

  /** Filtering mapped elements equals mapping the elements that pass the
      matching test. */
  lemma {:induction false} FilterMapFusion<T, U>(s: seq<T>, f: T -> U, keepMapped: U -> bool, keep: T -> bool)
    requires forall x :: keepMapped(f(x)) == keep(x)
    ensures Filter(Map(s, f), keepMapped) == Map(Filter(s, keep), f)
  {
    if s == [] {
      assert Map(s, f) == [];
    } else {
      var mapped := Map(s, f);
      assert mapped[0] == f(s[0]);
      assert mapped[1..] == Map(s[1..], f);
      FilterMapFusion(s[1..], f, keepMapped, keep);
      var kept := Filter(s[1..], keep);
      if keep(s[0]) {
        assert Map([s[0]] + kept, f) == [f(s[0])] + Map(kept, f);
      }
    }
  }
}
