/**
 * The metrics table of the compatibility analyser: for each category and
 * element name, the version record of that element. This module holds the
 * pure algebra of the table; the analyser's methods change the table only
 * through it.
 */
module Metrics {
  import opened Wrappers
  import opened Versions

  /** The groups of the metrics array, apart from the global 'versions' pair. */
  datatype Category =
    | Extensions | Namespaces | Interfaces | Traits | Classes
    | Methods | Functions | Constants | Conditions

  type Key = (Category, string)

  /**
   * A version record: 'ext.name', 'ext.min', 'ext.max', 'php.min', 'php.max',
   * the optional 'arg.max' and 'php.excludes' of reference records, and the
   * 'optional' flag and 'matches' counter the analyser adds. A record that
   * PHP builds with array_merge over the defaults is written here with every
   * field present, the defaults filled in.
   */
  datatype Entry = Entry(
    extName: string,
    extMin: Version,
    extMax: Version,
    phpMin: Version,
    phpMax: Version,
    argMax: Option<int>,
    excludes: seq<Version>,
    optional: bool,
    matches: nat)

  /** The default record: a user element that runs on PHP 4.0.0 and later. */
  const Php4: Entry := Entry("user", [], [], V400, [], None, [], false, 0)

  /** array('php.min' => min, 'php.max' => max) merged over the defaults. */
  function PhpRange(min: Version, max: Version): (r: Entry)
    ensures r.extName == "user" && r.phpMin == min && r.phpMax == max
  {
    Php4.(phpMin := min, phpMax := max)
  }

  type Table = map<Key, Entry>

  /**
   * A record only ever rises: its versions do not go down, its counter does
   * not decrease, once optional it stays so, and its extension name is fixed.
   */
  predicate EntryGrows(a: Entry, b: Entry) {
    && a.extName == b.extName
    && LessEq(a.phpMin, b.phpMin) && LessEq(a.phpMax, b.phpMax)
    && LessEq(a.extMin, b.extMin) && LessEq(a.extMax, b.extMax)
    && a.matches <= b.matches
    && (a.optional ==> b.optional)
  }

  /** The table is append/merge only: no record is removed or lowered. */
  predicate Grows(t0: Table, t1: Table) {
    t0.Keys <= t1.Keys && forall k {:trigger EntryGrows(t0[k], t1[k])} :: k in t0 ==> EntryGrows(t0[k], t1[k])
  }

  /** 'arg.max' rises to the incoming one only when the stored record has one. */
  function ArgMaxRaised(stored: Option<int>, incoming: Option<int>): (r: Option<int>)
    ensures r.None? <==> stored.None?
    ensures r.Some? ==> stored.value <= r.value && (incoming.Some? ==> incoming.value <= r.value)
  {
    if stored.Some? && incoming.Some? && stored.value < incoming.value then incoming else stored
  }

  lemma ArgMaxRaisedCommutes(e: Option<int>, a: Option<int>, b: Option<int>)
    ensures ArgMaxRaised(ArgMaxRaised(e, a), b) == ArgMaxRaised(ArgMaxRaised(e, b), a)
  {
  }

  /**
   * An existing record after an incoming record has been folded into it:
   * 'php.min' and 'php.max' rise to the greater version, 'ext.min' and
   * 'ext.max' too unless the incoming record is a user one, and 'arg.max'
   * rises only when the stored record has one.
   */
  function Merged(stored: Entry, incoming: Entry): (r: Entry)
    ensures EntryGrows(stored, r)
  {
    var raised := stored.(
      argMax := ArgMaxRaised(stored.argMax, incoming.argMax),
      phpMin := UpdateVersion(incoming.phpMin, stored.phpMin),
      phpMax := UpdateVersion(incoming.phpMax, stored.phpMax));
    if incoming.extName == "user" then raised
    else raised.(
      extMin := UpdateVersion(incoming.extMin, stored.extMin),
      extMax := UpdateVersion(incoming.extMax, stored.extMax))
  }

  /**
   * updateElementVersion(category, name, incoming): a missing record is first
   * created as the incoming one with no matches; then the incoming record is
   * merged into it.
   */
  function Updated(t: Table, k: Key, incoming: Entry): (r: Table)
    ensures k in r && r.Keys == t.Keys + {k}
    ensures Grows(t, r)
  {
    var stored := if k in t then t[k] else incoming.(matches := 0);
    t[k := Merged(stored, incoming)]
  }

  /** ++metrics[category][name]['matches']. */
  function Counted(t: Table, k: Key): (r: Table)
    requires k in t
    ensures r.Keys == t.Keys && r[k].matches == t[k].matches + 1
    ensures forall j :: j in t && j != k ==> r[j] == t[j]
    ensures Grows(t, r)
  {
    t[k := t[k].(matches := t[k].matches + 1)]
  }

  /** metrics[category][name]['optional'] = true. */
  function MarkedOptional(t: Table, k: Key): (r: Table)
    requires k in t
    ensures r.Keys == t.Keys && r[k].optional && r[k].matches == t[k].matches
    ensures forall j :: j in t && j != k ==> r[j] == t[j]
    ensures Grows(t, r)
  {
    t[k := t[k].(optional := true)]
  }

  lemma GrowsReflexive(t: Table)
    ensures Grows(t, t)
  {
  }

  lemma EntryGrowsTransitive(a: Entry, b: Entry, c: Entry)
    requires EntryGrows(a, b) && EntryGrows(b, c)
    ensures EntryGrows(a, c)
  {
    LessEqTransitive(a.phpMin, b.phpMin, c.phpMin);
    LessEqTransitive(a.phpMax, b.phpMax, c.phpMax);
    LessEqTransitive(a.extMin, b.extMin, c.extMin);
    LessEqTransitive(a.extMax, b.extMax, c.extMax);
  }

  lemma GrowsTransitive(t0: Table, t1: Table, t2: Table)
    requires Grows(t0, t1) && Grows(t1, t2)
    ensures Grows(t0, t2)
  {
    forall k | k in t0
      ensures EntryGrows(t0[k], t2[k])
    {
      EntryGrowsTransitive(t0[k], t1[k], t2[k]);
    }
  }

  /**
   * What updateElementVersion does to the record it names: afterwards it is at
   * least the incoming record's php.min and php.max and never below its old
   * versions; its counter, flag and extension name are untouched; and a user
   * record leaves the extension versions as they were.
   */
  lemma UpdatedEntry(t: Table, k: Key, v: Entry)
    requires k in t
    ensures var r := Updated(t, k, v)[k];
      && EntryGrows(t[k], r)
      && LessEq(v.phpMin, r.phpMin) && LessEq(v.phpMax, r.phpMax)
      && r.phpMin == UpdateVersion(v.phpMin, t[k].phpMin)
      && r.phpMax == UpdateVersion(v.phpMax, t[k].phpMax)
      && r.matches == t[k].matches && r.optional == t[k].optional
      && r.extName == t[k].extName && r.excludes == t[k].excludes
      && (v.extName == "user" ==> r.extMin == t[k].extMin && r.extMax == t[k].extMax)
      && (v.extName != "user" ==> LessEq(v.extMin, r.extMin) && LessEq(v.extMax, r.extMax))
  {
  }

  /** A missing record is created from the incoming one, with no matches. */
  lemma {:induction false} UpdatedCreates(t: Table, k: Key, v: Entry)
    requires k !in t
    ensures Updated(t, k, v)[k] == v.(matches := 0)
  {
    UpdateVersionIdempotent(v.phpMin);
    UpdateVersionIdempotent(v.phpMax);
    UpdateVersionIdempotent(v.extMin);
    UpdateVersionIdempotent(v.extMax);
  }

  /** No other record changes, and the only key that can appear is the one named. */
  lemma UpdatedFrame(t: Table, k: Key, v: Entry)
    ensures Updated(t, k, v).Keys == t.Keys + {k}
    ensures forall j :: j in t && j != k ==> Updated(t, k, v)[j] == t[j]
  {
  }

  /** Merging a record in a second time changes nothing. */
  lemma {:induction false} MergedIdempotent(e: Entry, v: Entry)
    ensures Merged(Merged(e, v), v) == Merged(e, v)
  {
    UpdateVersionAbsorbs(v.phpMin, e.phpMin);
    UpdateVersionAbsorbs(v.phpMax, e.phpMax);
    UpdateVersionAbsorbs(v.extMin, e.extMin);
    UpdateVersionAbsorbs(v.extMax, e.extMax);
  }

  /** Applying the same record twice gives the same table as applying it once. */
  lemma {:induction false} UpdatedIdempotent(t: Table, k: Key, v: Entry)
    ensures Updated(Updated(t, k, v), k, v) == Updated(t, k, v)
  {
    var stored := if k in t then t[k] else v.(matches := 0);
    MergedIdempotent(stored, v);
  }

  /** Raising a version by two others gives the same result in either order. */
  lemma RaisedTwiceCommutes(a: Version, b: Version, x: Version)
    ensures UpdateVersion(b, UpdateVersion(a, x)) == UpdateVersion(a, UpdateVersion(b, x))
  {
    UpdateVersionAssociates(b, a, x);
    UpdateVersionAssociates(a, b, x);
    UpdateVersionCommutes(a, b);
  }

  /** Merging two records into an existing one gives the same result in either order. */
  lemma {:induction false} MergedCommutes(e: Entry, a: Entry, b: Entry)
    ensures Merged(Merged(e, a), b) == Merged(Merged(e, b), a)
  {
    var ab, ba := Merged(Merged(e, a), b), Merged(Merged(e, b), a);
    assert ab.argMax == ba.argMax by {
      ArgMaxRaisedCommutes(e.argMax, a.argMax, b.argMax);
    }
    assert ab.phpMin == ba.phpMin by {
      RaisedTwiceCommutes(a.phpMin, b.phpMin, e.phpMin);
    }
    assert ab.phpMax == ba.phpMax by {
      RaisedTwiceCommutes(a.phpMax, b.phpMax, e.phpMax);
    }
    assert ab.extMin == ba.extMin by {
      RaisedTwiceCommutes(a.extMin, b.extMin, e.extMin);
    }
    assert ab.extMax == ba.extMax by {
      RaisedTwiceCommutes(a.extMax, b.extMax, e.extMax);
    }
  }

  /** For a record that already exists, the order of two updates does not matter. */
  lemma UpdatesCommute(t: Table, k: Key, a: Entry, b: Entry)
    requires k in t
    ensures Updated(Updated(t, k, a), k, b) == Updated(Updated(t, k, b), k, a)
  {
    MergedCommutes(t[k], a, b);
  }
}
