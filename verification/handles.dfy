/**
 * Shared item handles.
 *
 * Both dropdowns hold their items as reference-counted handles (`Rc<T>`).
 * A handle is modelled as the address it points to together with the value
 * stored there. The components compare handles by identity (`Rc::ptr_eq`),
 * that is by address; only the derived equality on props compares values.
 */
module Handles {

  datatype Option<+T> = None | Some(value: T)

  /** A shared handle to a host-owned item: `addr` is the pointer, `value` the pointee. */
  datatype Handle<V> = Handle(addr: nat, value: V)

  /** A host callback; callbacks are compared by the identity of the closure they wrap. */
  datatype Callback = Callback(id: nat)

  /** `Rc::ptr_eq`: the two handles point to the same allocation, whatever the
      values stored there; in particular every handle is ptr-equal to itself. */
  predicate SameHandle<V>(a: Handle<V>, b: Handle<V>)
    ensures a == b ==> SameHandle(a, b)
  {
    a.addr == b.addr
  }

  /** The search `iter().position(|x| Rc::ptr_eq(x, h))`: the first index holding `h`. */
  function Position<V>(s: seq<Handle<V>>, h: Handle<V>): (r: Option<nat>)
    ensures r.Some? ==> r.value < |s| && SameHandle(s[r.value], h)
    ensures r.Some? ==> forall j :: 0 <= j < r.value ==> !SameHandle(s[j], h)
    ensures r.None? <==> forall j :: 0 <= j < |s| ==> !SameHandle(s[j], h)
  {
    if s == [] then None
    else if SameHandle(s[0], h) then Some(0)
    else match Position(s[1..], h)
      case None => None
      case Some(i) => Some(i + 1)
  }

  /** The test `iter().any(|x| Rc::ptr_eq(x, h))`. */
  function Contains<V>(s: seq<Handle<V>>, h: Handle<V>): (b: bool)
    ensures b <==> exists j :: 0 <= j < |s| && SameHandle(s[j], h)
  {
    if s == [] then false
    else if SameHandle(s[0], h) then true
    else
      var rest := Contains(s[1..], h);
      assert forall j :: 1 <= j < |s| ==> s[j] == s[1..][j - 1];
      rest
  }

  /** The search for a handle as an explicit loop, as the iterator runs it. */
  method FindPosition<V>(s: seq<Handle<V>>, h: Handle<V>) returns (r: Option<nat>)
    ensures r == Position(s, h)
  {
    var i := 0;
    while i < |s|
      invariant 0 <= i <= |s|
      invariant forall j :: 0 <= j < i ==> !SameHandle(s[j], h)
    {
      if SameHandle(s[i], h) {
        return Some(i);
      }
      i := i + 1;
    }
    return None;
  }

  /** No two handles of `s` point to the same allocation. */
  predicate Distinct<V>(s: seq<Handle<V>>) {
    forall i, j :: 0 <= i < j < |s| ==> !SameHandle(s[i], s[j])
  }

  /** `s` with every handle to the allocation of `h` filtered out, the others in order. */
  function Without<V>(s: seq<Handle<V>>, h: Handle<V>): seq<Handle<V>> {
    if s == [] then []
    else if SameHandle(s[0], h) then Without(s[1..], h)
    else [s[0]] + Without(s[1..], h)
  }

  /** Filtering keeps exactly the handles to other allocations. */
  lemma {:induction false} WithoutContains<V>(s: seq<Handle<V>>, h: Handle<V>, x: Handle<V>)
    ensures Contains(Without(s, h), x) <==> Contains(s, x) && !SameHandle(x, h)
  {
    if s != [] {
      WithoutContains(s[1..], h, x);
      assert Contains(s, x) == (SameHandle(s[0], x) || Contains(s[1..], x));
      if !SameHandle(s[0], h) {
        ContainsCons(s[0], Without(s[1..], h), x);
      }
    }
  }

  lemma ContainsCons<V>(a: Handle<V>, s: seq<Handle<V>>, x: Handle<V>)
    ensures Contains([a] + s, x) == (SameHandle(a, x) || Contains(s, x))
  {
  }

  /** A handle that occurs in a distinct sequence occurs exactly once, so filtering it
      out removes one element and keeps the rest distinct. */
  lemma {:induction false} WithoutDistinct<V>(s: seq<Handle<V>>, h: Handle<V>)
    requires Distinct(s)
    ensures Distinct(Without(s, h))
    ensures |Without(s, h)| == if Contains(s, h) then |s| - 1 else |s|
  {
    if s != [] {
      assert Distinct(s[1..]);
      WithoutDistinct(s[1..], h);
      if SameHandle(s[0], h) {
        assert !Contains(s[1..], h);
        WithoutIdentity(s[1..], h);
      } else {
        var w := Without(s[1..], h);
        forall x | x in w ensures !SameHandle(s[0], x) {
          var k :| 0 <= k < |w| && w[k] == x;
          assert Contains(w, x);
          WithoutContains(s[1..], h, x);
          var j :| 0 <= j < |s[1..]| && SameHandle(s[1..][j], x);
          assert !SameHandle(s[0], s[j + 1]);
        }
        assert Distinct([s[0]] + w);
      }
    }
  }

  /** Filtering out a handle that does not occur changes nothing. */
  lemma {:induction false} WithoutIdentity<V>(s: seq<Handle<V>>, h: Handle<V>)
    requires !Contains(s, h)
    ensures Without(s, h) == s
  {
    if s != [] {
      assert !SameHandle(s[0], h);
      assert !Contains(s[1..], h);
      WithoutIdentity(s[1..], h);
      assert [s[0]] + s[1..] == s;
    }
  }

  /** In a distinct sequence, removing the element at the first position of `h`
      (what `Vec::remove(index)` does) is the same as filtering `h` out. */
  lemma {:induction false} RemoveAtPositionIsWithout<V>(s: seq<Handle<V>>, h: Handle<V>, i: nat)
    requires Distinct(s)
    requires Position(s, h) == Some(i)
    ensures s[..i] + s[i + 1..] == Without(s, h)
  {
    if i == 0 {
      assert !Contains(s[1..], h) by {
        forall j | 0 <= j < |s[1..]| ensures !SameHandle(s[1..][j], h) {
          assert !SameHandle(s[0], s[j + 1]);
        }
      }
      WithoutIdentity(s[1..], h);
      assert s[..0] + s[1..] == s[1..];
    } else {
      assert !SameHandle(s[0], h);
      assert Distinct(s[1..]);
      assert Position(s[1..], h) == Some(i - 1);
      RemoveAtPositionIsWithout(s[1..], h, i - 1);
      assert s[..i] + s[i + 1..] == [s[0]] + (s[1..][..i - 1] + s[1..][i..]);
    }
  }
}
