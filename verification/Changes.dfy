/** hasFileChanged and hasFileChangedByHash of cmd/revelt/dev.go: two snapshots
    of path -> stamp (modification time or content hash) compared. */
module Changes {

  /** A Go map read: the zero value for a missing key. */
  function Lookup<V>(m: map<string, V>, path: string, zero: V): V {
    if path in m then m[path] else zero
  }

  /** What the comparison cannot see: as many files as before, each as it was or
      newly there with the zero stamp. */
  ghost predicate LooksSame<V>(prev: map<string, V>, current: map<string, V>, zero: V) {
    |current| == |prev| && forall path | path in current :: current[path] == Lookup(prev, path, zero)
  }

  method HasFileChanged<V(==)>(prev: map<string, V>, current: map<string, V>, zero: V) returns (changed: bool)
    ensures changed <==> !LooksSame(prev, current, zero)
    ensures (forall path | path in current :: current[path] != zero) ==> (changed <==> current != prev)
  {
    if |current| != |prev| {
      return true;
    }
    if LooksSame(prev, current, zero) && current != prev {
      UnseenIsNewAndZero(prev, current, zero);
    }
    var rest := current.Keys;
    while rest != {}
      invariant rest <= current.Keys
      invariant forall path | path in current && path !in rest :: current[path] == Lookup(prev, path, zero)
      decreases rest
    {
      var path :| path in rest;
      if Lookup(prev, path, zero) != current[path] {
        return true;
      }
      rest := rest - {path};
    }
    changed := false;
  }

  lemma SameSizeSubset<K>(a: set<K>, b: set<K>)
    requires a <= b && |a| == |b|
    ensures a == b
  {
    if x :| x in b && x !in a {
      assert a <= b - {x};
      SubsetSize(a, b - {x});
    }
  }

  lemma {:induction false} SubsetSize<K>(a: set<K>, b: set<K>)
    requires a <= b
    ensures |a| <= |b|
  {
    if x :| x in a {
      SubsetSize(a - {x}, b - {x});
    }
  }

  /** A difference that goes unseen leaves a new file with the zero stamp. */
  lemma UnseenIsNewAndZero<V>(prev: map<string, V>, current: map<string, V>, zero: V)
    requires LooksSame(prev, current, zero) && current != prev
    ensures exists path :: path in current && path !in prev && current[path] == zero
  {
    if current.Keys <= prev.Keys {
      SameSizeSubset(current.Keys, prev.Keys);
      assert false;
    }
    var path :| path in current && path !in prev;
    assert current[path] == Lookup(prev, path, zero);
  }

  lemma {:induction false} LongPath(paths: set<string>) returns (n: nat)
    ensures forall path | path in paths :: |path| < n
  {
    if path :| path in paths {
      n := LongPath(paths - {path});
      n := if n > |path| then n else |path| + 1;
    } else {
      n := 0;
    }
  }

  /** The comparison misses no difference, whatever the earlier snapshot was,
      exactly when no file in the later one carries the zero stamp. */
  lemma SeesAllIffNoZeroStamp<V(!new)>(current: map<string, V>, zero: V)
    ensures (forall prev | LooksSame(prev, current, zero) :: prev == current)
            <==> (forall path | path in current :: current[path] != zero)
  {
    if forall path | path in current :: current[path] != zero {
      forall prev | LooksSame(prev, current, zero) ensures prev == current {
        if prev != current {
          UnseenIsNewAndZero(prev, current, zero);
          assert false;
        }
      }
    } else {
      var path :| path in current && current[path] == zero;
      var n := LongPath(current.Keys);
      var other := seq(n, _ => 'a');
      var rest := map p | p in current && p != path :: current[p];
      var prev := rest[other := zero];
      assert other !in current;
      assert rest.Keys == current.Keys - {path} && prev.Keys == rest.Keys + {other};
      assert |prev.Keys| == |current.Keys|;
      assert LooksSame(prev, current, zero);
      assert path !in prev;
      assert prev != current;
    }
  }
}
