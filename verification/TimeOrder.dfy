// Queries of the form ORDER BY an instant LIMIT a number.
module TimeOrder {
  // The first `limit` rows in the order of `when`; rows at the same instant come in any order.
  ghost predicate IsEarliest<K>(when: map<K, int>, limit: nat, picked: seq<K>) {
    && |picked| == (if limit < |when| then limit else |when|)
    && (forall i, j :: 0 <= i < j < |picked| ==> picked[i] != picked[j])
    && (forall f <- picked :: f in when)
    && (forall i, j :: 0 <= i < j < |picked| ==> when[picked[i]] <= when[picked[j]])
    && (forall f, g :: f in picked && g in when && g !in picked ==> when[f] <= when[g])
  }

  lemma EarliestExists<K>(when: map<K, int>) returns (first: K)
    requires when.Keys != {}
    ensures first in when && forall f <- when :: when[first] <= when[f]
  {
    var some :| some in when;
    var rest := map f | f in when && f != some :: when[f];
    if rest.Keys == {} {
      forall f <- when ensures f == some { assert f != some ==> f in rest; }
      first := some;
    } else {
      assert |rest.Keys| < |when.Keys| by { assert rest.Keys == when.Keys - {some}; }
      first := EarliestExists(rest);
      if when[some] <= when[first] { first := some; }
      forall f <- when ensures when[first] <= when[f] { if f != some { assert f in rest; } }
    }
  }

  method Earliest<K(==)>(when: map<K, int>, limit: nat) returns (picked: seq<K>)
    ensures IsEarliest(when, limit, picked)
  {
    picked := [];
    var rest := when.Keys;
    while |picked| < limit && rest != {}
      invariant |picked| <= limit && |picked| + |rest| == |when| && rest <= when.Keys
      invariant Partial(when, picked, rest)
      decreases rest
    {
      hide Partial;
      ghost var times := map f | f in rest :: when[f];
      ghost var first := EarliestExists(times);
      assert forall g <- rest :: times[first] <= times[g];
      var f :| f in rest && forall g <- rest :: when[f] <= when[g];
      PickNext(when, picked, rest, f);
      rest := rest - {f};
      picked := picked + [f];
    }
    PickedAreEarliest(when, limit, picked, rest);
  }

  // `picked` in order, and `rest` the rows of `when` not picked yet, none of them earlier.
  ghost predicate Partial<K>(when: map<K, int>, picked: seq<K>, rest: set<K>) {
    && (forall f <- picked :: f in when)
    && (forall f <- when :: f in rest <==> f !in picked)
    && (forall i, j :: 0 <= i < j < |picked| ==> picked[i] != picked[j] && when[picked[i]] <= when[picked[j]])
    && (forall f, g :: f in picked && g in rest && g in when ==> when[f] <= when[g])
  }

  lemma PickNext<K>(when: map<K, int>, picked: seq<K>, rest: set<K>, f: K)
    requires Partial(when, picked, rest) && rest <= when.Keys
    requires f in rest && forall g <- rest :: when[f] <= when[g]
    ensures Partial(when, picked + [f], rest - {f})
  {
    assert f !in picked;
  }

  lemma PickedAreEarliest<K>(when: map<K, int>, limit: nat, picked: seq<K>, rest: set<K>)
    requires Partial(when, picked, rest) && |picked| <= limit && |picked| + |rest| == |when|
    requires |picked| == limit || rest == {}
    ensures IsEarliest(when, limit, picked)
  {
  }

  lemma EarliestIn<K>(when: map<K, int>, limit: nat, picked: seq<K>)
    requires IsEarliest(when, limit, picked)
    ensures forall f <- picked :: f in when
  {
  }
}
