/** The CIDR-keyed memo cache of whois_lookup.py: an insertion-ordered
    dictionary from network to organisation name, filled from the rows of
    whois_cache.csv at start-up and extended by one row per registry lookup. */
module WhoisCache {
  import opened Options
  import opened IpNet
  import opened RdapRecord

  /** An organisation name as held in memory. `None` is Python's `None`,
      stored when the registry gave neither a truthy network name nor an
      ASN description. */
  type Netname = Option<string>

  /** One `cidr -> netname` item of the cache dictionary. */
  datatype Entry = Entry(cidr: Network, netname: Netname)

  /** One row `[cidr, netname]` of whois_cache.csv. */
  datatype Row = Row(cidr: Network, netname: string)

  // ----- The dictionary as an ordered sequence of entries -----

  function Keys(es: seq<Entry>): (ks: seq<Network>)
    ensures |ks| == |es|
    ensures forall i :: 0 <= i < |es| ==> ks[i] == es[i].cidr
  {
    seq(|es|, i requires 0 <= i < |es| => es[i].cidr)
  }

  /** A dictionary holds each key once. */
  predicate UniqueKeys(es: seq<Entry>) {
    forall i, j :: 0 <= i < j < |es| ==> es[i].cidr != es[j].cidr
  }

  /** Index of the first occurrence of `k` in `ks`, if any. */
  function Position(ks: seq<Network>, k: Network): (p: Option<nat>)
    ensures p.None? <==> k !in ks
    ensures p.Some? ==> p.value < |ks| && ks[p.value] == k
    ensures p.Some? ==> forall j :: 0 <= j < p.value ==> ks[j] != k
  {
    if ks == [] then None
    else if ks[0] == k then Some(0)
    else match Position(ks[1..], k)
      case None => None
      case Some(i) => Some(i + 1)
  }

  /** `cache.get(k)`: the name stored under `k`, if `k` is a key. */
  function Get(es: seq<Entry>, k: Network): (v: Option<Netname>)
    ensures v.None? <==> k !in Keys(es)
    ensures v.Some? ==> exists i :: 0 <= i < |es| && es[i] == Entry(k, v.value)
  {
    match Position(Keys(es), k)
    case None => None
    case Some(i) => Some(es[i].netname)
  }

  /** `cache[k] = v`: an existing key keeps its place and takes the new
      value; a new key is added after all others. No other key changes. */
  function Put(es: seq<Entry>, k: Network, v: Netname): (r: seq<Entry>)
    ensures Keys(r) == if k in Keys(es) then Keys(es) else Keys(es) + [k]
    ensures Get(r, k) == Some(v)
    ensures forall k' :: k' != k ==> Get(r, k') == Get(es, k')
    ensures UniqueKeys(es) ==> UniqueKeys(r)
  {
    match Position(Keys(es), k)
    case Some(i) =>
      var r := es[i := Entry(k, v)];
      assert Keys(r) == Keys(es);
      r
    case None =>
      var r := es + [Entry(k, v)];
      assert Keys(r) == Keys(es) + [k];
      PositionAppend(Keys(es), k);
      r
  }

  lemma {:induction false} PositionAppend(ks: seq<Network>, k: Network)
    requires k !in ks
    ensures Position(ks + [k], k) == Some(|ks|)
    ensures forall k' :: k' in ks ==> Position(ks + [k], k') == Position(ks, k')
  {
    forall k' | k' in ks
      ensures Position(ks + [k], k') == Position(ks, k')
    {
      var p := Position(ks, k').value;
      var p' := Position(ks + [k], k').value;
      assert (ks + [k])[p] == k';
    }
  }

  // ----- The cache scan (whois_lookup.py:18-20) -----

  /** Index of the first entry, in iteration order, whose network contains
      the address; `None` when no entry does. */
  function FirstContaining(es: seq<Entry>, a: Address): (r: Option<nat>)
    ensures r.Some? ==> r.value < |es| && Contains(es[r.value].cidr, a)
    ensures r.Some? ==> forall j :: 0 <= j < r.value ==> !Contains(es[j].cidr, a)
    ensures r.None? <==> forall j :: 0 <= j < |es| ==> !Contains(es[j].cidr, a)
  {
    if es == [] then None
    else if Contains(es[0].cidr, a) then Some(0)
    else match FirstContaining(es[1..], a)
      case None => None
      case Some(i) => Some(i + 1)
  }

  // ----- Loading the store (whois_lookup.py:11-14) -----

  /** The cache after `cache[row[0]] = row[1]` for every row, in file order. */
  function LoadRows(rows: seq<Row>): (es: seq<Entry>)
    ensures UniqueKeys(es)
  {
    if rows == [] then []
    else
      var last := rows[|rows| - 1];
      Put(LoadRows(rows[..|rows| - 1]), last.cidr, Some(last.netname))
  }

  /** The key column of the store, in file order. It is the `Keys` of the
      rows rather than of the cache entries: rows carry a written name, not
      an in-memory one. */
  function RowKeys(rows: seq<Row>): (ks: seq<Network>)
    ensures |ks| == |rows|
    ensures forall i :: 0 <= i < |rows| ==> ks[i] == rows[i].cidr
  {
    seq(|rows|, i requires 0 <= i < |rows| => rows[i].cidr)
  }

  /** Index of the last row whose key is `k`, if any. */
  function LastRow(rows: seq<Row>, k: Network): (r: Option<nat>)
    ensures r.None? <==> forall j :: 0 <= j < |rows| ==> rows[j].cidr != k
    ensures r.Some? ==> r.value < |rows| && rows[r.value].cidr == k
    ensures r.Some? ==> forall j :: r.value < j < |rows| ==> rows[j].cidr != k
  {
    if rows == [] then None
    else if rows[|rows| - 1].cidr == k then Some(|rows| - 1)
    else LastRow(rows[..|rows| - 1], k)
  }

  /** Loading keeps, for each key, the name from its last row. */
  lemma {:induction false} LoadLastRowWins(rows: seq<Row>, k: Network)
    ensures Get(LoadRows(rows), k) ==
            match LastRow(rows, k)
            case None => None
            case Some(i) => Some(Some(rows[i].netname))
  {
    if rows != [] {
      var init := rows[..|rows| - 1];
      LoadLastRowWins(init, k);
      if rows[|rows| - 1].cidr != k {
        assert LastRow(rows, k) == LastRow(init, k);
      }
    }
  }

  /** The keys of the loaded cache are exactly the keys of the rows. */
  lemma {:induction false} LoadKeys(rows: seq<Row>, k: Network)
    ensures k in Keys(LoadRows(rows)) <==> k in RowKeys(rows)
  {
    LoadLastRowWins(rows, k);
    var r := LastRow(rows, k);
    if r.Some? {
      assert RowKeys(rows)[r.value] == k;
    }
  }

  /** `a` occurs in `ks`, and its first occurrence comes before that of `b`. */
  predicate Before(ks: seq<Network>, a: Network, b: Network) {
    match (Position(ks, a), Position(ks, b))
    case (Some(i), Some(j)) => i < j
    case _ => false
  }

  /** Loading orders keys by their first occurrence in the rows: of two
      keys, the one whose first row comes first is iterated first. */
  lemma {:induction false} LoadFirstOccurrenceOrder(rows: seq<Row>, a: Network, b: Network)
    ensures Before(Keys(LoadRows(rows)), a, b) <==> Before(RowKeys(rows), a, b)
  {
    if rows == [] {
      return;
    }
    var n := |rows| - 1;
    var init := rows[..n];
    var k := rows[n].cidr;
    var ks := Keys(LoadRows(init));
    var rks := RowKeys(init);
    assert RowKeys(rows) == rks + [k];
    LoadKeys(init, k);
    LoadKeys(init, a);
    LoadKeys(init, b);
    LoadFirstOccurrenceOrder(init, a, b);
    if k in rks {
      assert Keys(LoadRows(rows)) == ks;
      PositionPrefix(rks, k);
    } else {
      assert Keys(LoadRows(rows)) == ks + [k];
      PositionAppend(ks, k);
      PositionAppend(rks, k);
    }
  }

  /** Appending a key already present moves no first occurrence. */
  lemma PositionPrefix(ks: seq<Network>, k: Network)
    requires k in ks
    ensures forall k' :: Position(ks + [k], k') == Position(ks, k')
  {
    forall k' ensures Position(ks + [k], k') == Position(ks, k') {
      if k' in ks {
        var p := Position(ks, k').value;
        assert (ks + [k])[p] == k';
      } else {
        assert k' != k;
        assert k' !in ks + [k];
      }
    }
  }

  // ----- What the store reads back as -----

  /** What csv.writer writes for a name: Python's `None` becomes "". */
  function CsvCell(n: Netname): (s: string)
    ensures n.Some? ==> s == n.value
    ensures n.None? ==> s == ""
  {
    match n
    case None => ""
    case Some(s) => s
  }

  /** The cache a fresh start would load from the rows written for `es`:
      same keys in the same order, every name as written to the file. */
  function Persisted(es: seq<Entry>): (p: seq<Entry>)
    ensures Keys(p) == Keys(es)
    ensures forall i :: 0 <= i < |es| ==> p[i].netname == Some(CsvCell(es[i].netname))
  {
    seq(|es|, i requires 0 <= i < |es| => Entry(es[i].cidr, Some(CsvCell(es[i].netname))))
  }

  lemma PersistedPut(es: seq<Entry>, k: Network, v: Netname)
    ensures Persisted(Put(es, k, v)) == Put(Persisted(es), k, Some(CsvCell(v)))
  {
    assert Keys(Persisted(es)) == Keys(es);
  }

  /** A loaded cache holds only names read from the file, so persisting it
      changes nothing. */
  lemma {:induction false} PersistedLoad(rows: seq<Row>)
    ensures Persisted(LoadRows(rows)) == LoadRows(rows)
  {
    if rows != [] {
      var init := rows[..|rows| - 1];
      var last := rows[|rows| - 1];
      PersistedLoad(init);
      PersistedPut(LoadRows(init), last.cidr, Some(last.netname));
    }
  }

  /** A restart sees the same scan hits: persisting changes names only. */
  lemma FirstContainingPersisted(es: seq<Entry>, a: Address)
    ensures FirstContaining(Persisted(es), a) == FirstContaining(es, a)
  {
  }

  // ----- Consequences of a miss -----

  /** If the block recorded on a miss contains the address, the same address
      now hits, on the recorded entry, which is the last one. */
  lemma MissThenHit(es: seq<Entry>, a: Address, k: Network, v: Netname)
    requires FirstContaining(es, a).None?
    requires Contains(k, a)
    ensures FirstContaining(Put(es, k, v), a) == Some(|es|)
    ensures Put(es, k, v)[|es|] == Entry(k, v)
  {
    var r := Put(es, k, v);
    assert Keys(r)[|es|] == k;
    assert forall j :: 0 <= j < |es| ==> r[j].cidr == es[j].cidr by {
      forall j | 0 <= j < |es| ensures r[j].cidr == es[j].cidr {
        assert Keys(r)[j] == Keys(es)[j];
      }
    }
    assert Get(r, k) == Some(v);
    PositionAppend(Keys(es), k);
  }

  /** If the block recorded on a miss does not contain the address, the same
      address misses again: nothing checked the registry's block. */
  lemma MissOutsideStaysMiss(es: seq<Entry>, a: Address, k: Network, v: Netname)
    requires FirstContaining(es, a).None?
    requires !Contains(k, a)
    ensures FirstContaining(Put(es, k, v), a).None?
  {
  }

  // ----- The cache object -----

  class NetnameCache {
    /** The `cache` dictionary, in its iteration (insertion) order. */
    var entries: seq<Entry>
    /** The rows of whois_cache.csv, in file order. */
    var store: seq<Row>
    /** The addresses the registry has been asked about, in order. */
    ghost var rdapQueries: seq<Address>

    /** Keys are unique, and reloading the store gives back the cache with
        every name as it was written: memory and file never diverge. */
    ghost predicate Valid()
      reads this
    {
      UniqueKeys(entries) && LoadRows(store) == Persisted(entries)
    }

    /** Start-up (whois_lookup.py:11-14): `cache[row[0]] = row[1]` for every
        row of the store, in order. A missing file is the empty store. */
    constructor Load(rows: seq<Row>)
      ensures Valid()
      ensures entries == LoadRows(rows) && store == rows && rdapQueries == []
    {
      var es: seq<Entry> := [];
      var i := 0;
      while i < |rows|
        invariant 0 <= i <= |rows|
        invariant es == LoadRows(rows[..i])
      {
        assert rows[..i + 1][..i] == rows[..i];
        es := Put(es, rows[i].cidr, Some(rows[i].netname));
        i := i + 1;
      }
      assert rows[..|rows|] == rows;
      PersistedLoad(rows);
      entries := es;
      store := rows;
      rdapQueries := [];
    }

    /** The `for cidr, netname in cache.items()` loop: the index of the first
        entry whose network contains the address. */
    method Scan(addr: Address) returns (hit: Option<nat>)
      ensures hit == FirstContaining(entries, addr)
    {
      var i := 0;
      while i < |entries|
        invariant 0 <= i <= |entries|
        invariant forall j :: 0 <= j < i ==> !Contains(entries[j].cidr, addr)
      {
        if Contains(entries[i].cidr, addr) {
          hit := Some(i);
          return;
        }
        i := i + 1;
      }
      hit := None;
    }

    /** `get_netname(ip)`: on a hit, the name of the first containing entry,
        with nothing changed and no registry lookup. On a miss, one registry
        lookup; its chosen cidr is stored with its chosen name, one row is
        appended to the store, and that name is returned whether or not the
        block contains the address. */
    method GetNetname(addr: Address, rdap: Record) returns (netname: Netname)
      requires Valid()
      requires FirstContaining(entries, addr).None? ==> ChooseCidr(rdap).Some?
      modifies this
      ensures Valid()
      ensures FirstContaining(old(entries), addr).Some? ==>
                && netname == old(entries)[FirstContaining(old(entries), addr).value].netname
                && entries == old(entries)
                && store == old(store)
                && rdapQueries == old(rdapQueries)
      ensures FirstContaining(old(entries), addr).None? ==>
                var cidr := ChooseCidr(rdap).value;
                && netname == ChooseName(rdap)
                && entries == Put(old(entries), cidr, netname)
                && store == old(store) + [Row(cidr, CsvCell(netname))]
                && rdapQueries == old(rdapQueries) + [addr]
      ensures FirstContaining(old(entries), addr).None? && Contains(ChooseCidr(rdap).value, addr) ==>
                FirstContaining(entries, addr) == Some(|old(entries)|) &&
                entries[|old(entries)|].netname == netname
    {
      var hit := Scan(addr);
      if hit.Some? {
        netname := entries[hit.value].netname;
        return;
      }
      rdapQueries := rdapQueries + [addr];
      var cidr := ChooseCidr(rdap).value;
      netname := ChooseName(rdap);
      var row := Row(cidr, CsvCell(netname));
      PersistedPut(entries, cidr, netname);
      assert (store + [row])[..|store|] == store;
      if Contains(cidr, addr) {
        MissThenHit(entries, addr, cidr, netname);
      }
      entries := Put(entries, cidr, netname);
      store := store + [row];
    }
  }
}
