/** Shared vocabulary: optional values, document ids, request-body fields
    and the deterministic key order used wherever the document store hands
    back a whole collection. */
module Common {

  /** An absent value or a present one. */
  datatype Option<+T> = None | Some(value: T)

  /** A document id. The handlers only compare ids for equality. The store
      issues them from one counter that only grows (`Documents.Store.nextId`),
      as MongoDB ObjectIds are never reused and grow with their creation
      time, so ascending id order is insertion order. */
  type Id = nat

  /** A field of a JSON request body: absent (`undefined` or `null`, which
      every server-side check treats alike), or a string. */
  type Field = Option<string>

  /** JavaScript truthiness of a body field: present and not the empty string. */
  predicate Truthy(f: Field) {
    f.Some? && f.value != ""
  }

  /** Every element occurs at most once. */
  ghost predicate NoDup<T>(xs: seq<T>) {
    forall i, j :: 0 <= i < j < |xs| ==> xs[i] != xs[j]
  }

  /** Strictly ascending, hence duplicate-free. */
  ghost predicate Increasing(xs: seq<nat>) {
    forall i, j :: 0 <= i < j < |xs| ==> xs[i] < xs[j]
  }

  /** `m` is the smallest element of `ks`. */
  predicate IsLeast(m: nat, ks: set<nat>) {
    m in ks && forall k :: k in ks ==> m <= k
  }

  lemma {:induction false} LeastExists(ks: set<nat>)
    requires ks != {}
    ensures exists m :: IsLeast(m, ks)
    decreases |ks|
  {
    var x :| x in ks;
    var rest := ks - {x};
    if rest == {} {
      forall k | k in ks
        ensures x <= k
      {
        assert k !in rest;
      }
      assert IsLeast(x, ks);
    } else {
      LeastExists(rest);
      var m :| IsLeast(m, rest);
      var least := if x < m then x else m;
      forall k | k in ks
        ensures least <= k
      {
        if k != x {
          assert k in rest;
        }
      }
      assert IsLeast(least, ks);
    }
  }

  /** The smallest key of a non-empty key set. */
  function Least(ks: set<nat>): (m: nat)
    requires ks != {}
    ensures m in ks
    ensures forall k :: k in ks ==> m <= k
  {
    LeastExists(ks);
    var m :| IsLeast(m, ks);
    m
  }

  /** The keys of a collection in ascending order: the order in which the
      store returns a collection scan. */
  function SortedKeys(ks: set<nat>): (r: seq<nat>)
    ensures forall k :: k in r <==> k in ks
    ensures Increasing(r)
    decreases ks
  {
    if ks == {} then []
    else
      var m := Least(ks);
      var rest := SortedKeys(ks - {m});
      assert forall k :: k in rest ==> m < k;
      [m] + rest
  }
}
