/** Counters kept beside hash rows (f1srv/hash.go, f1srv/hash_ttl.go). */
module HashTally {
  import opened Bytes
  import opened HashCells

  /** The rows of one hash. */
  function Of(rows: set<Row>, h: Bytes): (s: set<Row>)
    ensures forall r :: r in s <==> r in rows && r.0 == h
  {
    set r | r in rows && r.0 == h
  }

  function Num(m: map<Bytes, int>, h: Bytes): (n: int)
  {
    if h in m then m[h] else 0
  }

  /** A counter with no row for zero. */
  function SetNum(m: map<Bytes, int>, h: Bytes, n: int): (m': map<Bytes, int>)
    ensures Num(m', h) == n && forall k :: k != h ==> Num(m', k) == Num(m, k)
    ensures (forall k :: k in m ==> m[k] != 0) ==> forall k :: k in m' ==> m'[k] != 0
  {
    if n == 0 then m - {h} else m[h := n]
  }

  /** The counters agree with the rows, but for h, whose counter is d ahead, and none is zero. */
  ghost predicate Tally(m: map<Bytes, int>, rows: set<Row>, h: Bytes, d: int)
  {
    (forall k :: Num(m, k) == |Of(rows, k)| + (if k == h then d else 0)) && (forall k :: k in m ==> m[k] != 0)
  }

  lemma OfAdd(rows: set<Row>, r: Row, k: Bytes)
    requires r !in rows
    ensures |Of(rows + {r}, k)| == |Of(rows, k)| + (if k == r.0 then 1 else 0)
  {
    if k == r.0 {
      assert Of(rows + {r}, k) == Of(rows, k) + {r};
    } else {
      assert Of(rows + {r}, k) == Of(rows, k);
    }
  }

  lemma TallyAdd(m: map<Bytes, int>, rows: set<Row>, r: Row, d: int)
    requires Tally(m, rows, r.0, d) && r !in rows
    ensures Tally(m, rows + {r}, r.0, d - 1)
  {
    hide Of;
    forall k ensures Num(m, k) == |Of(rows + {r}, k)| + (if k == r.0 then d - 1 else 0) {
      OfAdd(rows, r, k);
    }
  }

  lemma TallyRemove(m: map<Bytes, int>, rows: set<Row>, r: Row, d: int)
    requires Tally(m, rows, r.0, d) && r in rows
    ensures Tally(m, rows - {r}, r.0, d + 1)
  {
    hide Of;
    assert rows == (rows - {r}) + {r};
    forall k ensures Num(m, k) == |Of(rows - {r}, k)| + (if k == r.0 then d + 1 else 0) {
      OfAdd(rows - {r}, r, k);
    }
  }

  lemma TallySet(m: map<Bytes, int>, rows: set<Row>, h: Bytes, d: int, n: int)
    requires Tally(m, rows, h, d)
    ensures Tally(SetNum(m, h, n), rows, h, d + n - Num(m, h))
  {
    hide SetNum;
    var m' := SetNum(m, h, n);
    forall k ensures Num(m', k) == |Of(rows, k)| + (if k == h then d + n - Num(m, h) else 0) {
      assert Num(m, k) == |Of(rows, k)| + (if k == h then d else 0);
    }
  }

  lemma TallyAny(m: map<Bytes, int>, rows: set<Row>, h: Bytes, h': Bytes)
    requires Tally(m, rows, h, 0)
    ensures Tally(m, rows, h', 0)
  {
    forall k ensures Num(m, k) == |Of(rows, k)| { assert Num(m, k) == |Of(rows, k)| + (if k == h then 0 else 0); }
  }

  /** A zero counter means no rows: the skip gates are sound. */
  lemma TallyZero(m: map<Bytes, int>, rows: set<Row>, h: Bytes)
    requires Tally(m, rows, h, 0) && Num(m, h) == 0
    ensures forall r :: r in rows ==> r.0 != h
  {
    assert |Of(rows, h)| == 0;
    assert Of(rows, h) == {};
  }

  /** The rows settle the counters. */
  lemma TallyUnique(m: map<Bytes, int>, m': map<Bytes, int>, rows: set<Row>)
    requires Tally(m, rows, [], 0) && Tally(m', rows, [], 0)
    ensures m == m'
  {
    forall k ensures Num(m, k) == Num(m', k) { TallyAt(m, rows, k); TallyAt(m', rows, k); }
    forall k ensures k in m <==> k in m' { assert Num(m, k) == Num(m', k); }
    forall k | k in m ensures m[k] == m'[k] { assert Num(m, k) == Num(m', k); }
  }

  lemma TallyAt(m: map<Bytes, int>, rows: set<Row>, k: Bytes)
    requires Tally(m, rows, [], 0)
    ensures Num(m, k) == |Of(rows, k)|
  {
    assert Num(m, k) == |Of(rows, k)| + (if k == [] then 0 else 0);
  }

  /** A counter that is ahead or behind is not exact. */
  lemma TallyApart(m: map<Bytes, int>, rows: set<Row>, h: Bytes, d: int)
    requires Tally(m, rows, h, d) && d != 0
    ensures !Tally(m, rows, [], 0)
  {
    if Tally(m, rows, [], 0) {
      TallyAt(m, rows, h);
    }
  }

  /** Sweeping dead fields leaves the living as they are. */
  lemma SweepKeeps(cells: Cells, h: Bytes, now: int)
    ensures Alive(cells - DeadOf(cells, h, now), now) == Alive(cells, now)
    ensures Of((cells - DeadOf(cells, h, now)).Keys, h) == Of(Alive(cells, now).Keys, h)
  {
  }

  /** A hash without rows needs no counter. */
  lemma TallyDrop(m: map<Bytes, int>, rows: set<Row>, all: set<Row>, h: Bytes)
    requires Tally(m, rows, [], 0) && rows <= all
    ensures Tally(m - {h}, rows - Of(all, h), [], 0)
  {
    var left := rows - Of(all, h);
    forall k ensures Num(m - {h}, k) == |Of(left, k)| + (if k == [] then 0 else 0) {
      TallyAt(m, rows, k);
      if k == h {
        assert Of(left, k) == {};
      } else {
        assert Of(left, k) == Of(rows, k);
      }
    }
  }

  /** A header row exists just when the hash has fields. */
  lemma HeaderMeans(m: map<Bytes, int>, rows: set<Row>, h: Bytes)
    requires Tally(m, rows, h, 0)
    ensures h in m <==> exists r :: r in rows && r.0 == h
    ensures h !in m ==> Of(rows, h) == {}
  {
    TallyIs(m, rows, h, 0);
    if h !in m {
      assert |Of(rows, h)| == 0;
      assert Of(rows, h) == {};
      assert forall r :: r in rows && r.0 == h ==> r in Of(rows, h);
    } else {
      assert Of(rows, h) != {};
      var r :| r in Of(rows, h);
    }
  }

  /** The fields an HSET has made so far are rows of its hash and have no deadline; a closed gate means
      the hash has none. */
  ghost predicate MadeHere(rows: map<Row, Bytes>, ttl: map<Row, int>, h: Bytes, made: set<Row>, hadTtl: bool)
  {
    made <= Of(rows.Keys, h) && made !! ttl.Keys && (!hadTtl ==> forall r :: r in ttl ==> r.0 != h)
  }

  lemma MadePut(rows: map<Row, Bytes>, ttl: map<Row, int>, made: set<Row>, hadTtl: bool, r: Row, v: Bytes)
    requires MadeHere(rows, ttl, r.0, made, hadTtl)
    ensures MadeHere(rows[r := v], ttl - {r}, r.0, made, hadTtl) && MadeHere(rows[r := v], ttl - {r}, r.0, made + {r}, hadTtl)
    ensures r !in rows || r in ttl ==> r !in made && |made + {r}| == |made| + 1
  {
  }

  lemma MadeFewer(rows: set<Row>, made: set<Row>, r: Row)
    requires made <= Of(rows, r.0) && r in rows && r !in made
    ensures |made| < |Of(rows, r.0)|
  {
    FewerCards(made, Of(rows, r.0) - {r});
  }

  lemma {:induction false} FewerCards<T>(a: set<T>, b: set<T>)
    requires a <= b
    ensures |a| <= |b|
  {
    if a != {} {
      var x :| x in a;
      FewerCards(a - {x}, b - {x});
    }
  }

  lemma TallyIs(m: map<Bytes, int>, rows: set<Row>, h: Bytes, d: int)
    requires Tally(m, rows, h, d)
    ensures Num(m, h) == |Of(rows, h)| + d
  {
  }

  lemma TallyPositive(m: map<Bytes, int>, rows: set<Row>, r: Row)
    requires Tally(m, rows, r.0, 0) && r in rows
    ensures Num(m, r.0) >= 1
  {
    assert r in Of(rows, r.0);
    assert Num(m, r.0) == |Of(rows, r.0)|;
  }

  lemma TallyAtLeast(m: map<Bytes, int>, rows: set<Row>, h: Bytes)
    requires Tally(m, rows, h, 0)
    ensures Num(m, h) >= 0
  {
    assert Num(m, h) == |Of(rows, h)| + (if h == h then 0 else 0);
  }

  /** One row more, and its counter with it. */
  lemma TallyMore(m: map<Bytes, int>, rows: set<Row>, r: Row)
    requires Tally(m, rows, [], 0) && r !in rows
    ensures Tally(SetNum(m, r.0, Num(m, r.0) + 1), rows + {r}, [], 0)
  {
    hide Tally, Num, SetNum;
    TallyAny(m, rows, [], r.0);
    TallyAdd(m, rows, r, 0);
    TallySet(m, rows + {r}, r.0, -1, Num(m, r.0) + 1);
    TallyAny(SetNum(m, r.0, Num(m, r.0) + 1), rows + {r}, r.0, []);
  }

  /** One row fewer. */
  lemma TallyFewer(m: map<Bytes, int>, rows: set<Row>, r: Row)
    requires Tally(m, rows, [], 0) && r in rows
    ensures Num(m, r.0) >= 1 && Tally(SetNum(m, r.0, Num(m, r.0) - 1), rows - {r}, [], 0)
  {
    hide Tally, Num, SetNum;
    TallyAny(m, rows, [], r.0);
    TallyPositive(m, rows, r);
    TallyRemove(m, rows, r, 0);
    TallySet(m, rows - {r}, r.0, 1, Num(m, r.0) - 1);
    TallyAny(SetNum(m, r.0, Num(m, r.0) - 1), rows - {r}, r.0, []);
  }
}
