/** The relational operations the handlers' SQL statements perform, over tables held
    as sequences in their physical order: `WHERE column = ?`, `ORDER BY column DESC`,
    the inner join of a registration with its activity, and the uniqueness of a key. */
module Query {
  import opened Records

  /** The row filter `x => key(x) == k`, i.e. `WHERE column = k`. */
  function KeyIs<T, K(==)>(key: T -> K, k: K): T -> bool
  {
    x => key(x) == k
  }

  /** `DELETE ... WHERE column = k` keeps exactly the rows of `KeyIsNot(key, k)`. */
  function KeyIsNot<T, K(==)>(key: T -> K, k: K): T -> bool
  {
    x => key(x) != k
  }

  /** The rows satisfying `p`, in table order. */
  function Where<T(==,!new)>(rows: seq<T>, p: T -> bool): (r: seq<T>)
    ensures forall x :: x in r <==> x in rows && p(x)
    ensures |r| <= |rows|
    ensures r == [] <==> forall x :: x in rows ==> !p(x)
  {
    if rows == [] then []
    else if p(rows[0]) then [rows[0]] + Where(rows[1..], p)
    else Where(rows[1..], p)
  }

  /** `WHERE column = k`: the rows whose `key` is `k`, in table order. */
  function WhereEq<T(==,!new), K(==)>(rows: seq<T>, key: T -> K, k: K): (r: seq<T>)
    ensures forall x :: x in r <==> x in rows && key(x) == k
    ensures r == [] <==> forall x :: x in rows ==> key(x) != k
  {
    Where(rows, KeyIs(key, k))
  }

  /** What `DELETE ... WHERE column = k` keeps: the rows whose `key` is not `k`, in
      table order. */
  function WhereNe<T(==,!new), K(==)>(rows: seq<T>, key: T -> K, k: K): (r: seq<T>)
    ensures forall x :: x in r <==> x in rows && key(x) != k
    ensures r == [] <==> forall x :: x in rows ==> key(x) == k
  {
    Where(rows, KeyIsNot(key, k))
  }

  /** `WhereEq` row by row, from the front of the table. */
  lemma WhereEqCons<T(!new), K>(x: T, rest: seq<T>, key: T -> K, k: K)
    ensures WhereEq([x] + rest, key, k) == if key(x) == k then [x] + WhereEq(rest, key, k) else WhereEq(rest, key, k)
  {
    assert KeyIs(key, k)(x) == (key(x) == k);
    WhereCons(x, rest, KeyIs(key, k));
  }

  /** `Where` keeps every matching row as many times as the table holds it, and no other. */
  lemma {:induction false} WhereCounts<T(!new)>(rows: seq<T>, p: T -> bool)
    ensures forall x :: multiset(Where(rows, p))[x] == if p(x) then multiset(rows)[x] else 0
  {
    if rows != [] {
      WhereCounts(rows[1..], p);
      assert rows == [rows[0]] + rows[1..];
    }
  }

  /** `Where` row by row, from the front of the table. */
  lemma WhereCons<T(!new)>(x: T, rest: seq<T>, p: T -> bool)
    ensures Where([x] + rest, p) == if p(x) then [x] + Where(rest, p) else Where(rest, p)
  {
    assert ([x] + rest)[1..] == rest;
  }

  /** `Where` over a table with one more row at the end. */
  lemma {:induction false} WhereAppend<T(!new)>(rows: seq<T>, x: T, p: T -> bool)
    ensures Where(rows + [x], p) == Where(rows, p) + (if p(x) then [x] else [])
  {
    if rows == [] {
      assert [x][1..] == [];
    } else {
      WhereAppend(rows[1..], x, p);
      assert (rows + [x])[1..] == rows[1..] + [x];
    }
  }

  /** `WHERE column = k` over a table with one more row at the end. */
  lemma WhereEqAppend<T(!new), K>(rows: seq<T>, x: T, key: T -> K, k: K)
    ensures WhereEq(rows + [x], key, k) == WhereEq(rows, key, k) + (if key(x) == k then [x] else [])
  {
    assert KeyIs(key, k)(x) == (key(x) == k);
    WhereAppend(rows, x, KeyIs(key, k));
  }

  /** Filtering twice by the same condition is filtering once. */
  lemma {:induction false} WhereIdempotent<T(!new)>(rows: seq<T>, p: T -> bool)
    ensures Where(Where(rows, p), p) == Where(rows, p)
  {
    if rows != [] {
      WhereIdempotent(rows[1..], p);
      if p(rows[0]) {
        WhereCons(rows[0], Where(rows[1..], p), p);
      }
    }
  }

  /** Repeating a `DELETE` removes nothing more. */
  lemma WhereNeIdempotent<T(!new), K>(rows: seq<T>, key: T -> K, k: K)
    ensures WhereNe(WhereNe(rows, key, k), key, k) == WhereNe(rows, key, k)
  {
    WhereIdempotent(rows, KeyIsNot(key, k));
  }

  /** The first row `Where` returns is the first row of the table that satisfies `p`:
      this is the row a handler reads as `rows[0]`. */
  lemma {:induction false} WhereHeadIsFirstMatch<T(!new)>(rows: seq<T>, p: T -> bool)
    requires Where(rows, p) != []
    ensures exists i :: 0 <= i < |rows| && rows[i] == Where(rows, p)[0] && p(rows[i])
                        && forall j :: 0 <= j < i ==> !p(rows[j])
  {
    if p(rows[0]) {
      assert rows[0] == Where(rows, p)[0];
    } else {
      WhereHeadIsFirstMatch(rows[1..], p);
      var i :| 0 <= i < |rows[1..]| && rows[1..][i] == Where(rows[1..], p)[0] && p(rows[1..][i])
               && forall j :: 0 <= j < i ==> !p(rows[1..][j]);
      assert rows[i + 1] == Where(rows, p)[0];
      forall j | 0 <= j < i + 1 ensures !p(rows[j]) {
        if j > 0 { assert rows[j] == rows[1..][j - 1]; }
      }
    }
  }

  /** No two rows share a key: what a UNIQUE constraint (or the handler's own check
      before inserting) keeps true of a table. */
  ghost predicate UniqueKey<T, K>(rows: seq<T>, key: T -> K)
  {
    forall i, j :: 0 <= i < j < |rows| ==> key(rows[i]) != key(rows[j])
  }

  lemma UniqueKeyTail<T, K>(rows: seq<T>, key: T -> K)
    requires UniqueKey(rows, key) && rows != []
    ensures UniqueKey(rows[1..], key)
    ensures forall y :: y in rows[1..] ==> key(y) != key(rows[0])
  {
    var rest := rows[1..];
    forall i, j | 0 <= i < j < |rest| ensures key(rest[i]) != key(rest[j]) {
      assert rest[i] == rows[i + 1] && rest[j] == rows[j + 1];
    }
    forall y | y in rest ensures key(y) != key(rows[0]) {
      var j :| 0 <= j < |rest| && rest[j] == y;
      assert rows[j + 1] == y;
    }
  }

  /** Under a unique key, `WHERE column = k` finds at most one row. */
  lemma {:induction false} UniqueKeyAtMostOne<T(!new), K>(rows: seq<T>, key: T -> K, k: K)
    requires UniqueKey(rows, key)
    ensures |WhereEq(rows, key, k)| <= 1
  {
    if rows != [] {
      var rest := rows[1..];
      UniqueKeyTail(rows, key);
      UniqueKeyAtMostOne(rest, key, k);
      assert rows == [rows[0]] + rest;
      WhereEqCons(rows[0], rest, key, k);
      if key(rows[0]) == k {
        assert WhereEq(rest, key, k) == [];
      }
    }
  }

  /** Appending a row whose key `WHERE column = ?` did not find keeps the key unique. */
  lemma AppendKeepsUniqueKey<T(!new), K>(rows: seq<T>, key: T -> K, x: T)
    requires UniqueKey(rows, key)
    requires WhereEq(rows, key, key(x)) == []
    ensures UniqueKey(rows + [x], key)
  {
    var all := rows + [x];
    forall i, j | 0 <= i < j < |all| ensures key(all[i]) != key(all[j]) {
      if j == |rows| {
        assert all[i] in rows;
      }
    }
  }

  /** Removing rows keeps a key unique. */
  lemma {:induction false} WhereKeepsUniqueKey<T(!new), K>(rows: seq<T>, key: T -> K, p: T -> bool)
    requires UniqueKey(rows, key)
    ensures UniqueKey(Where(rows, p), key)
  {
    if rows != [] {
      var rest := rows[1..];
      UniqueKeyTail(rows, key);
      WhereKeepsUniqueKey(rest, key, p);
      var w := Where(rest, p);
      if p(rows[0]) {
        var r := [rows[0]] + w;
        forall i, j | 0 <= i < j < |r| ensures key(r[i]) != key(r[j]) {
          assert r[j] == w[j - 1] && r[j] in rest;
          if i > 0 { assert r[i] == w[i - 1]; }
        }
      }
    }
  }

  /** Descending order on `key`, for every pair of positions. */
  ghost predicate SortedDesc<T>(s: seq<T>, key: T -> int)
  {
    forall i, j :: 0 <= i < j < |s| ==> key(s[i]) >= key(s[j])
  }

  function InsertDesc<T(==,!new)>(x: T, s: seq<T>, key: T -> int): (r: seq<T>)
    requires SortedDesc(s, key)
    ensures SortedDesc(r, key)
    ensures multiset(r) == multiset(s) + multiset{x}
    ensures |r| == |s| + 1 && (r[0] == x || (s != [] && r[0] == s[0]))
  {
    if s == [] || key(x) >= key(s[0]) then [x] + s
    else
      var rest := InsertDesc(x, s[1..], key);
      assert s == [s[0]] + s[1..];
      assert key(s[0]) >= key(rest[0]);
      [s[0]] + rest
  }

  /** `ORDER BY key DESC`: a permutation of the rows in descending key order. Rows with
      equal keys keep their table order here; SQL leaves that order unspecified. */
  function SortDesc<T(==,!new)>(s: seq<T>, key: T -> int): (r: seq<T>)
    ensures SortedDesc(r, key)
    ensures multiset(r) == multiset(s)
  {
    if s == [] then []
    else
      assert s == [s[0]] + s[1..];
      InsertDesc(s[0], SortDesc(s[1..], key), key)
  }

  /** Sequences that are permutations of each other hold the same rows. */
  lemma SameMembers<T(!new)>(a: seq<T>, b: seq<T>)
    requires multiset(a) == multiset(b)
    ensures forall x :: x in a <==> x in b
  {
    forall x ensures x in a <==> x in b {
      assert x in a <==> x in multiset(a);
      assert x in b <==> x in multiset(b);
    }
  }

  /** `FROM pendaftaran p JOIN kegiatan k ON p.kegiatan_id = k.id`, each matched pair
      projected through `row`. */
  function Join<R(==,!new)>(ps: seq<Pendaftaran>, ks: seq<Kegiatan>, row: (Pendaftaran, Kegiatan) -> R): (r: seq<R>)
    ensures forall p, k :: p in ps && k in ks && k.id == p.kegiatanId ==> row(p, k) in r
    ensures forall y :: y in r ==> exists p, k :: p in ps && k in ks && k.id == p.kegiatanId && y == row(p, k)
  {
    if ps == [] then []
    else
      assert forall p :: p in ps ==> p == ps[0] || p in ps[1..];
      Matches(ps[0], ks, row) + Join(ps[1..], ks, row)
  }

  /** The joined rows of one registration. */
  function Matches<R(==,!new)>(p: Pendaftaran, ks: seq<Kegiatan>, row: (Pendaftaran, Kegiatan) -> R): (r: seq<R>)
    ensures forall k :: k in ks && k.id == p.kegiatanId ==> row(p, k) in r
    ensures forall y :: y in r ==> exists k :: k in ks && k.id == p.kegiatanId && y == row(p, k)
    ensures (forall k :: k in ks ==> k.id != p.kegiatanId) ==> r == []
  {
    if ks == [] then []
    else
      assert forall k :: k in ks ==> k == ks[0] || k in ks[1..];
      (if ks[0].id == p.kegiatanId then [row(p, ks[0])] else []) + Matches(p, ks[1..], row)
  }

  /** Every row occurs at most once. */
  ghost predicate NoDuplicates<T(!new)>(s: seq<T>)
  {
    forall x :: multiset(s)[x] <= 1
  }

  /** Under unique activity ids a registration joins with at most one activity. */
  lemma {:induction false} MatchesAtMostOne<R(!new)>(p: Pendaftaran, ks: seq<Kegiatan>, row: (Pendaftaran, Kegiatan) -> R)
    requires UniqueKey(ks, KegiatanIdOf)
    ensures |Matches(p, ks, row)| <= 1
  {
    if ks != [] {
      var rest := ks[1..];
      UniqueKeyTail(ks, KegiatanIdOf);
      MatchesAtMostOne(p, rest, row);
      if ks[0].id == p.kegiatanId {
        assert forall k :: k in rest ==> k.id != p.kegiatanId;
      }
    }
  }

  /** The inner join is a bag with one row per matching pair. When registration ids
      and activity ids are unique and every joined row carries its registration's id,
      no row occurs twice. */
  lemma {:induction false} JoinNoDuplicates<R(!new)>(ps: seq<Pendaftaran>, ks: seq<Kegiatan>,
                                                   row: (Pendaftaran, Kegiatan) -> R, id: R -> int)
    requires UniqueKey(ps, PendaftaranIdOf) && UniqueKey(ks, KegiatanIdOf)
    requires forall p, k :: id(row(p, k)) == p.id
    ensures NoDuplicates(Join(ps, ks, row))
  {
    if ps != [] {
      var rest := ps[1..];
      UniqueKeyTail(ps, PendaftaranIdOf);
      JoinNoDuplicates(rest, ks, row, id);
      MatchesAtMostOne(ps[0], ks, row);
      var m := Matches(ps[0], ks, row);
      var j := Join(rest, ks, row);
      forall y | y in j ensures id(y) != ps[0].id {
        var p, k :| p in rest && k in ks && k.id == p.kegiatanId && y == row(p, k);
      }
      forall x | x in m ensures x !in j {
        var k :| k in ks && k.id == ps[0].kegiatanId && x == row(ps[0], k);
      }
      PrependKeepsNoDuplicates(m, j);
    }
  }

  /** Putting at most one row in front of rows it does not occur in keeps them free of
      duplicates. */
  lemma PrependKeepsNoDuplicates<T(!new)>(m: seq<T>, j: seq<T>)
    requires |m| <= 1 && NoDuplicates(j) && forall x :: x in m ==> x !in j
    ensures NoDuplicates(m + j)
  {
    forall x ensures multiset(m + j)[x] <= 1 {
      assert multiset(m + j)[x] == multiset(m)[x] + multiset(j)[x];
      if x in m {
        assert m == [x] && x !in multiset(j);
      } else {
        assert x !in multiset(m);
      }
    }
  }

  /** A key that is unique in a table identifies a row of it. */
  lemma SameKeySameRow<T, K>(rows: seq<T>, key: T -> K, x: T, y: T)
    requires UniqueKey(rows, key) && x in rows && y in rows && key(x) == key(y)
    ensures x == y
  {
    var i :| 0 <= i < |rows| && rows[i] == x;
    var j :| 0 <= j < |rows| && rows[j] == y;
    assert !(i < j) && !(j < i);
  }

  /** A row of the administrator's listing identifies the registration it shows. */
  lemma AdminRowIdentifiesPendaftaran(ps: seq<Pendaftaran>, p: Pendaftaran, q: Pendaftaran, k: Kegiatan, j: Kegiatan)
    requires UniqueKey(ps, PendaftaranIdOf) && p in ps && q in ps
    requires AdminRowOf(p, k) == AdminRowOf(q, j)
    ensures p == q
  {
    SameKeySameRow(ps, PendaftaranIdOf, p, q);
  }

  /** A row of a student's history identifies the registration it shows. */
  lemma StudentRowIdentifiesPendaftaran(ps: seq<Pendaftaran>, p: Pendaftaran, q: Pendaftaran, k: Kegiatan, j: Kegiatan)
    requires UniqueKey(ps, PendaftaranIdOf) && p in ps && q in ps
    requires StudentRowOf(p, k) == StudentRowOf(q, j)
    ensures p == q
  {
    SameKeySameRow(ps, PendaftaranIdOf, p, q);
  }
}
