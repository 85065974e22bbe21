/**
 * The one piece of server/src/db.rs this model keeps: warming the link cache
 * at start-up. Every other query is a parameter of the operations that use it.
 */
module Db {
  import opened Models
  import Cache

  /** The cache after `warm_cache` has set every active row of `rows`, in order, on top of `m`. */
  function Warmed(m: map<string, string>, rows: seq<Link>): (r: map<string, string>)
    ensures m.Keys <= r.Keys
    ensures rows != [] && rows[|rows| - 1].isActive ==>
      rows[|rows| - 1].shortCode in r && r[rows[|rows| - 1].shortCode] == rows[|rows| - 1].originalUrl
  {
    if rows == [] then m
    else
      var w := Warmed(m, rows[..|rows| - 1]);
      var last := rows[|rows| - 1];
      if last.isActive then w[last.shortCode := last.originalUrl] else w
  }

  /** The short codes of the active rows. */
  function ActiveCodes(rows: seq<Link>): set<string>
  {
    set i | 0 <= i < |rows| && rows[i].isActive :: rows[i].shortCode
  }

  lemma ActiveCodesStep(rows: seq<Link>)
    requires rows != []
    ensures ActiveCodes(rows) == ActiveCodes(rows[..|rows| - 1]) +
      (if rows[|rows| - 1].isActive then {rows[|rows| - 1].shortCode} else {})
  {
    var front := rows[..|rows| - 1];
    forall c | c in ActiveCodes(rows)
      ensures c in ActiveCodes(front) || (rows[|rows| - 1].isActive && c == rows[|rows| - 1].shortCode)
    {
      var i :| 0 <= i < |rows| && rows[i].isActive && rows[i].shortCode == c;
      if i < |rows| - 1 { assert front[i] == rows[i]; }
    }
    forall c | c in ActiveCodes(front) ensures c in ActiveCodes(rows) {
      var i :| 0 <= i < |front| && front[i].isActive && front[i].shortCode == c;
      assert rows[i] == front[i];
    }
  }

  /** Warming adds exactly the codes of the active rows to the keys. */
  lemma {:induction false} WarmedKeys(m: map<string, string>, rows: seq<Link>)
    ensures Warmed(m, rows).Keys == m.Keys + ActiveCodes(rows)
  {
    if rows != [] {
      WarmedKeys(m, rows[..|rows| - 1]);
      ActiveCodesStep(rows);
    }
  }

  /** A key that no active row names keeps the value it had before warming. */
  lemma {:induction false} WarmedKeepsOthers(m: map<string, string>, rows: seq<Link>, k: string)
    requires k in m && k !in ActiveCodes(rows)
    ensures k in Warmed(m, rows) && Warmed(m, rows)[k] == m[k]
  {
    if rows != [] {
      ActiveCodesStep(rows);
      WarmedKeepsOthers(m, rows[..|rows| - 1], k);
    }
  }

  /**
   * When the active rows carry distinct codes (the table's UNIQUE constraint on
   * short_code), warming maps every active row's code to that row's URL.
   */
  lemma {:induction false} WarmedMapsActive(m: map<string, string>, rows: seq<Link>, i: nat)
    requires forall p, q :: 0 <= p < q < |rows| && rows[p].isActive && rows[q].isActive ==>
      rows[p].shortCode != rows[q].shortCode
    requires i < |rows| && rows[i].isActive
    ensures rows[i].shortCode in Warmed(m, rows)
    ensures Warmed(m, rows)[rows[i].shortCode] == rows[i].originalUrl
  {
    var front := rows[..|rows| - 1];
    if i < |rows| - 1 {
      assert front[i] == rows[i];
      WarmedMapsActive(m, front, i);
    }
  }

  /**
   * `warm_cache`: loads the rows `WHERE is_active = 1` and sets each one in the
   * cache. A failed query leaves the cache untouched and is reported.
   */
  method WarmCache(cache: Cache.LinkCache, rows: DbResult<seq<Link>>) returns (ok: bool)
    modifies cache
    ensures ok <==> rows.Found?
    ensures cache.inner == if rows.Found? then Warmed(old(cache.inner), rows.value) else old(cache.inner)
  {
    if rows.DbError? {
      return false;
    }
    var links := rows.value;
    var i := 0;
    while i < |links|
      invariant 0 <= i <= |links|
      invariant cache.inner == Warmed(old(cache.inner), links[..i])
    {
      assert links[..i + 1][..i] == links[..i];
      if links[i].isActive {
        cache.Set(links[i].shortCode, links[i].originalUrl);
      }
      i := i + 1;
    }
    assert links[..i] == links;
    ok := true;
  }
}
