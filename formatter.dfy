/**
 * The pure parts of the compatibility report: the title of each group, the
 * version band of a group (the greatest versions over its elements), the
 * rows of its table in name order, its footer, and the closing "Requires"
 * line. What is written to the console is the data returned here.
 */
module Formatter {
  import opened Wrappers
  import opened Strings
  import opened Versions
  import opened Metrics

  /** The groups of the report, in order, with the category each lists; methods are not listed. */
  const Groups: seq<(string, Category)> := [
    ("extensions", Extensions), ("namespaces", Namespaces),
    ("interfaces", Interfaces), ("traits", Traits), ("classes", Classes),
    ("functions", Functions), ("constants", Constants),
    ("conditions", Conditions)]

  /** The records of one category, by element name. */
  function GroupOf(t: Table, c: Category): (args: map<string, Entry>)
    ensures forall n :: n in args <==> (c, n) in t
    ensures forall n :: n in args ==> args[n] == t[(c, n)]
  {
    map k | k in t && k.0 == c :: k.1 := t[k]
  }

  // ---------------------------------------------------------------------------
  // Titles

  /** The singular title of a group: "classes" loses two characters, every other group one. */
  function Title(group: string): (title: string)
    ensures group == "classes" ==> title == "class"
    ensures group != "classes" && |group| >= 1 ==> title + [group[|group| - 1]] == group
    ensures |group| >= 1 ==> |title| < |group|
  {
    var cut := if group == "classes" then 2 else 1;
    if |group| >= cut then group[..|group| - cut] else ""
  }

  /** The titles of the report's groups. */
  lemma GroupTitles()
    ensures Title("extensions") == "extension" && Title("namespaces") == "namespace"
    ensures Title("interfaces") == "interface" && Title("traits") == "trait"
    ensures Title("classes") == "class" && Title("functions") == "function"
    ensures Title("constants") == "constant" && Title("conditions") == "condition"
  {
  }

  /** ucfirst: the first character upper-cased. */
  function Ucfirst(s: string): (r: string)
    ensures |r| == |s| && (s != [] ==> r[0] == UpperChar(s[0]) && r[1..] == s[1..])
  {
    if s == [] then [] else [UpperChar(s[0])] + s[1..]
  }

  // ---------------------------------------------------------------------------
  // The version band of a group

  /** The fields of a record whose key ends in "min" or "max", other than "arg.max". */
  datatype BandField = ExtMin | ExtMax | PhpMin | PhpMax

  /** The keys a record may hold. */
  const RecordKeys: seq<string> := ["ext.name", "ext.min", "ext.max", "php.min", "php.max", "arg.max", "php.excludes", "optional", "matches"]

  /** The key test of the band loop: ends in "min" or "max", and is not "arg.max". */
  predicate IsBandKey(id: string) {
    (EndsWith(id, "min") || EndsWith(id, "max")) && id != "arg.max"
  }

  function FieldKey(f: BandField): string {
    match f
    case ExtMin => "ext.min"
    case ExtMax => "ext.max"
    case PhpMin => "php.min"
    case PhpMax => "php.max"
  }

  /** Of the keys a record may hold, the key test selects exactly the four band fields. */
  lemma BandKeysAreFields()
    ensures forall id :: id in RecordKeys ==> (IsBandKey(id) <==> exists f :: FieldKey(f) == id)
  {
    assert FieldKey(ExtMin) == "ext.min" && FieldKey(ExtMax) == "ext.max";
    assert FieldKey(PhpMin) == "php.min" && FieldKey(PhpMax) == "php.max";
  }

  /** The band: the four versions the group's records are raised into. */
  datatype Band = Band(extMin: Version, extMax: Version, phpMin: Version, phpMax: Version)

  /** The band before any record: PHP 4.0.0 and otherwise empty. */
  const Baseline: Band := Band([], [], V400, [])

  function Get(b: Band, f: BandField): Version {
    match f
    case ExtMin => b.extMin
    case ExtMax => b.extMax
    case PhpMin => b.phpMin
    case PhpMax => b.phpMax
  }

  function Of(e: Entry, f: BandField): Version {
    match f
    case ExtMin => e.extMin
    case ExtMax => e.extMax
    case PhpMin => e.phpMin
    case PhpMax => e.phpMax
  }

  /** One record's pass of the band loop: each field raised when the record's is greater. */
  function Raise(b: Band, e: Entry): (r: Band)
    ensures forall f :: Get(r, f) == UpdateVersion(Of(e, f), Get(b, f))
  {
    Band(UpdateVersion(e.extMin, b.extMin), UpdateVersion(e.extMax, b.extMax),
         UpdateVersion(e.phpMin, b.phpMin), UpdateVersion(e.phpMax, b.phpMax))
  }

  /** `v` is the greatest of the baseline and the field over every record. */
  predicate Greatest(v: Version, base: Version, args: map<string, Entry>, f: BandField) {
    && LessEq(base, v)
    && (forall n :: n in args ==> LessEq(Of(args[n], f), v))
    && (v == base || exists n :: n in args && Of(args[n], f) == v)
  }

  /** There is only one greatest version. */
  lemma GreatestUnique(v: Version, w: Version, base: Version, args: map<string, Entry>, f: BandField)
    requires Greatest(v, base, args, f) && Greatest(w, base, args, f)
    ensures v == w
  {
    assert LessEq(v, w) && LessEq(w, v);
    if v != w {
      LessAsymmetric(v, w);
    }
  }

  /** Raising by one more record keeps the greatest. */
  lemma GreatestStep(v: Version, base: Version, args: map<string, Entry>, n: string, e: Entry, f: BandField)
    requires Greatest(v, base, args, f) && n !in args
    ensures Greatest(UpdateVersion(Of(e, f), v), base, args[n := e], f)
  {
    var w := UpdateVersion(Of(e, f), v);
    LessEqTransitive(base, v, w);
    forall m | m in args
      ensures LessEq(Of(args[m], f), w)
    {
      LessEqTransitive(Of(args[m], f), v, w);
    }
    if w != base {
      if w == v {
        var m :| m in args && Of(args[m], f) == v;
        assert m in args[n := e] && args[n := e][m] == args[m];
      } else {
        assert n in args[n := e] && Of(args[n := e][n], f) == w;
      }
    }
  }

  /** One record's pass keeps every field the greatest. */
  lemma RaiseStep(b: Band, args: map<string, Entry>, n: string, e: Entry)
    requires forall f :: Greatest(Get(b, f), Get(Baseline, f), args, f)
    requires n !in args
    ensures forall f :: Greatest(Get(Raise(b, e), f), Get(Baseline, f), args[n := e], f)
  {
    forall f
      ensures Greatest(Get(Raise(b, e), f), Get(Baseline, f), args[n := e], f)
    {
      GreatestStep(Get(b, f), Get(Baseline, f), args, n, e, f);
    }
  }

  /** The band loop: every record of the group raises the band. */
  method GroupBand(args: map<string, Entry>) returns (band: Band)
    ensures forall f :: Greatest(Get(band, f), Get(Baseline, f), args, f)
  {
    band := Baseline;
    var remaining := args.Keys;
    assert args - remaining == map[];
    while remaining != {}
      invariant remaining <= args.Keys
      invariant forall f :: Greatest(Get(band, f), Get(Baseline, f), args - remaining, f)
      decreases |remaining|
    {
      var n :| n in remaining;
      RaiseStep(band, args - remaining, n, args[n]);
      assert args - (remaining - {n}) == (args - remaining)[n := args[n]];
      band := Raise(band, args[n]);
      remaining := remaining - {n};
    }
    assert args - remaining == args;
  }

  // ---------------------------------------------------------------------------
  // Version strings

  /** `min` alone when `max` prints empty, otherwise "min => max". */
  function BandString(min: Version, max: Version): (r: string)
    ensures |VersionString(min)| <= |r| && r[..|VersionString(min)|] == VersionString(min)
    ensures max == [] ==> r == VersionString(min)
    ensures |r| > |VersionString(min)| <==> IsTruthy(VersionString(max))
    ensures IsTruthy(VersionString(max)) ==> r == VersionString(min) + " => " + VersionString(max)
    ensures ' ' in r <==> IsTruthy(VersionString(max))
  {
    if !IsTruthy(VersionString(max)) then VersionString(min)
    else VersionString(min) + " => " + VersionString(max)
  }

  /** The closing line: the minimum PHP version, then the maximum when there is one. */
  function RequiresLine(phpMin: Version, phpMax: Version): (r: string)
    ensures var head := "\n<php>Requires PHP " + VersionString(phpMin) + " (min)";
      && |head| <= |r| && r[..|head|] == head
      && EndsWith(r, "</php>")
      && (!IsTruthy(VersionString(phpMax)) ==> r == head + "</php>")
      && (IsTruthy(VersionString(phpMax)) ==> r == head + ", PHP " + VersionString(phpMax) + " (max)</php>")
  {
    var head := "\n<php>Requires PHP " + VersionString(phpMin) + " (min)";
    if !IsTruthy(VersionString(phpMax)) then
      assert (head + "</php>")[..|head|] == head;
      head + "</php>"
    else
      var r := head + ", PHP " + VersionString(phpMax) + " (max)</php>";
      assert r == head + (", PHP " + VersionString(phpMax) + " (max)</php>");
      assert r[..|head|] == head;
      assert r[|r| - 6..] == "</php>";
      r
  }

  // ---------------------------------------------------------------------------
  // Rows

  /** version_compare's comparison operators. */
  datatype CompareOp = Lt | Le | Gt | Ge | Eq | Ne

  predicate Compare(a: Version, b: Version, op: CompareOp) {
    match op
    case Lt => Less(a, b)
    case Le => LessEq(a, b)
    case Gt => Less(b, a)
    case Ge => LessEq(b, a)
    case Eq => a == b
    case Ne => a != b
  }

  /** A row filter: an operator and the version the minimum PHP version is compared with. */
  datatype Filter = Filter(op: CompareOp, version: Version)

  predicate Shown(e: Entry, filter: Option<Filter>) {
    filter.None? || Compare(e.phpMin, filter.value.version, filter.value.op)
  }

  /** A table row: flag, element name, matches, extension, extension band, PHP band. */
  datatype Row = Row(flag: string, name: string, matches: string, ref: string, ext: string, php: string)

  /**
   * The row of a record: the name and extension of its record, the flag
   * ("W" exactly when versions are excluded, else "C" exactly when optional),
   * the matches as decimal digits that read back as the count, blank for
   * zero, and the two bands.
   */
  function RowOf(name: string, e: Entry): (r: Row)
    ensures r.name == name && r.ref == e.extName
    ensures r.flag == "W" <==> |e.excludes| > 0
    ensures r.flag == "C" <==> |e.excludes| == 0 && e.optional
    ensures r.flag == " " <==> |e.excludes| == 0 && !e.optional
    ensures r.matches == "" <==> e.matches == 0
    ensures e.matches > 0 ==> (forall i :: 0 <= i < |r.matches| ==> IsDigit(r.matches[i])) && DigitsValue(r.matches) == e.matches
    ensures r.ext == BandString(e.extMin, e.extMax) && r.php == BandString(e.phpMin, e.phpMax)
  {
    DigitsValueOfNatToString(e.matches);
    Row(
      if |e.excludes| > 0 then "W" else if e.optional then "C" else " ",
      name,
      if e.matches > 0 then NatToString(e.matches) else "",
      e.extName,
      BandString(e.extMin, e.extMax),
      BandString(e.phpMin, e.phpMax))
  }

  predicate StrLess(a: string, b: string) {
    StrLessEq(a, b) && a != b
  }

  /** `x` is a name of `s` that no other name of `s` precedes. */
  predicate LeastOf(x: string, s: set<string>) {
    x in s && forall y :: y in s ==> StrLessEq(x, y)
  }

  /** Every finite non-empty set of names has a least one in strcmp order. */
  lemma {:induction false} MinimumExists(s: set<string>)
    requires s != {}
    ensures exists x :: LeastOf(x, s)
    decreases |s|
  {
    var a :| a in s;
    StrLessEqReflexive(a);
    if s == {a} {
      assert LeastOf(a, s);
    } else {
      var rest := s - {a};
      MinimumExists(rest);
      var m :| LeastOf(m, rest);
      StrLessEqTotal(a, m);
      if StrLessEq(a, m) {
        forall y | y in s
          ensures StrLessEq(a, y)
        {
          if y != a {
            StrLessEqTransitive(a, m, y);
          }
        }
        assert LeastOf(a, s);
      } else {
        assert LeastOf(m, s);
      }
    }
  }

  /** ksort on the element names: each name once, in strictly increasing order. */
  method SortKeys(keys: set<string>) returns (ks: seq<string>)
    ensures forall i, j :: 0 <= i < j < |ks| ==> StrLess(ks[i], ks[j])
    ensures forall k :: k in ks <==> k in keys
    ensures |ks| == |keys|
  {
    ks := [];
    var remaining := keys;
    while remaining != {}
      invariant remaining <= keys
      invariant forall k :: k in ks <==> k in keys && k !in remaining
      invariant forall i, j :: 0 <= i < j < |ks| ==> StrLess(ks[i], ks[j])
      invariant forall i, y :: 0 <= i < |ks| && y in remaining ==> StrLess(ks[i], y)
      invariant |ks| + |remaining| == |keys|
      decreases |remaining|
    {
      MinimumExists(remaining);
      var x :| LeastOf(x, remaining);
      ks := ks + [x];
      remaining := remaining - {x};
    }
  }

  /** The group has a record of that name and the filter shows it. */
  predicate IsShown(n: string, args: map<string, Entry>, filter: Option<Filter>) {
    n in args && Shown(args[n], filter)
  }

  /** A row of a shown record of the group. */
  predicate RowFor(row: Row, args: map<string, Entry>, filter: Option<Filter>) {
    IsShown(row.name, args, filter) && row == RowOf(row.name, args[row.name])
  }

  /** The rows of a group: one per shown record, in name order, each the row of its record. */
  ghost predicate RowsFor(rows: seq<Row>, args: map<string, Entry>, filter: Option<Filter>) {
    && (forall i, j :: 0 <= i < j < |rows| ==> StrLess(rows[i].name, rows[j].name))
    && (forall i :: 0 <= i < |rows| ==> RowFor(rows[i], args, filter))
    && (forall n :: IsShown(n, args, filter) ==> exists i :: 0 <= i < |rows| && rows[i].name == n)
  }

  /** Names in strictly increasing strcmp order. */
  predicate StrictlyIncreasing(names: seq<string>) {
    forall i, j :: 0 <= i < j < |names| ==> StrLess(names[i], names[j])
  }

  /** The names whose records the filter shows, in their order. */
  function ShownNames(names: seq<string>, args: map<string, Entry>, filter: Option<Filter>): seq<string>
    decreases |names|
  {
    if names == [] then []
    else
      var n := names[|names| - 1];
      ShownNames(names[..|names| - 1], args, filter) + (if IsShown(n, args, filter) then [n] else [])
  }

  lemma ShownNamesSnoc(names: seq<string>, n: string, args: map<string, Entry>, filter: Option<Filter>)
    ensures ShownNames(names + [n], args, filter) == ShownNames(names, args, filter) + (if IsShown(n, args, filter) then [n] else [])
  {
    var m := names + [n];
    assert m[..|m| - 1] == names;
    assert m[|m| - 1] == n;
  }

  /** A shown name is a name of a shown record, and each such name is shown. */
  lemma {:induction false} ShownNamesExact(names: seq<string>, args: map<string, Entry>, filter: Option<Filter>)
    ensures forall n :: n in ShownNames(names, args, filter) <==> n in names && IsShown(n, args, filter)
    decreases |names|
  {
    if names != [] {
      var init := names[..|names| - 1];
      assert names == init + [names[|names| - 1]];
      ShownNamesExact(init, args, filter);
    }
  }

  /** Filtering names in strictly increasing order keeps them in strictly increasing order. */
  lemma {:induction false} ShownNamesSorted(names: seq<string>, args: map<string, Entry>, filter: Option<Filter>)
    requires StrictlyIncreasing(names)
    ensures StrictlyIncreasing(ShownNames(names, args, filter))
    decreases |names|
  {
    if names != [] {
      var init := names[..|names| - 1];
      var n := names[|names| - 1];
      ShownNamesSorted(init, args, filter);
      ShownNamesExact(init, args, filter);
      var shown0 := ShownNames(init, args, filter);
      forall r | 0 <= r < |shown0|
        ensures StrLess(shown0[r], n)
      {
        assert shown0[r] in init;
        var j :| 0 <= j < |init| && init[j] == shown0[r];
        assert names[j] == init[j];
      }
      ShownNamesSnoc(init, n, args, filter);
      assert names == init + [n];
    }
  }

  /** The rows are the rows of the given names' records, one each, in order. */
  predicate RowsMatch(rows: seq<Row>, shown: seq<string>, args: map<string, Entry>, filter: Option<Filter>) {
    && |rows| == |shown|
    && (forall r :: 0 <= r < |rows| ==> rows[r].name == shown[r])
    && (forall r :: 0 <= r < |rows| ==> RowFor(rows[r], args, filter))
  }

  lemma RowsMatchSnoc(rows: seq<Row>, shown: seq<string>, args: map<string, Entry>, filter: Option<Filter>, name: string)
    requires RowsMatch(rows, shown, args, filter)
    requires IsShown(name, args, filter)
    ensures RowsMatch(rows + [RowOf(name, args[name])], shown + [name], args, filter)
  {
  }

  /**
   * Rows built one per shown name, over names that are the group's keys in
   * strictly increasing order, are the group's rows.
   */
  lemma RowsOfShownNames(rows: seq<Row>, names: seq<string>, args: map<string, Entry>, filter: Option<Filter>)
    requires StrictlyIncreasing(names)
    requires forall k :: k in names <==> k in args
    requires RowsMatch(rows, ShownNames(names, args, filter), args, filter)
    ensures RowsFor(rows, args, filter)
  {
    var shown := ShownNames(names, args, filter);
    ShownNamesSorted(names, args, filter);
    forall r, s | 0 <= r < s < |rows|
      ensures StrLess(rows[r].name, rows[s].name)
    {
      assert rows[r].name == shown[r] && rows[s].name == shown[s];
      assert StrLess(shown[r], shown[s]);
    }
    ShownNamesExact(names, args, filter);
    forall n | IsShown(n, args, filter)
      ensures exists r :: 0 <= r < |rows| && rows[r].name == n
    {
      assert n in shown;
      var r :| 0 <= r < |shown| && shown[r] == n;
      assert rows[r].name == n;
    }
  }

  /** The row loop: sort the group by name, then append the row of each shown record. */
  method VersionHelper(args: map<string, Entry>, filter: Option<Filter>) returns (rows: seq<Row>)
    ensures RowsFor(rows, args, filter)
  {
    var names := SortKeys(args.Keys);
    rows := AppendRows(names, args, filter);
    RowsOfShownNames(rows, names, args, filter);
  }

  /** One row per name, in order, for each name whose record the filter shows. */
  method AppendRows(names: seq<string>, args: map<string, Entry>, filter: Option<Filter>) returns (rows: seq<Row>)
    requires forall i :: 0 <= i < |names| ==> names[i] in args
    ensures RowsMatch(rows, ShownNames(names, args, filter), args, filter)
  {
    rows := [];
    ghost var shown: seq<string> := [];
    var i := 0;
    while i < |names|
      invariant 0 <= i <= |names|
      invariant shown == ShownNames(names[..i], args, filter)
      invariant RowsMatch(rows, shown, args, filter)
    {
      var name := names[i];
      assert names[..i + 1] == names[..i] + [name];
      ShownNamesSnoc(names[..i], name, args, filter);
      if Shown(args[name], filter) {
        RowsMatchSnoc(rows, shown, args, filter, name);
        rows := rows + [RowOf(name, args[name])];
        shown := shown + [name];
      }
      i := i + 1;
    }
    assert names[..i] == names;
  }

  /** Distinct names are as many as their set. */
  lemma {:induction false} DistinctNamesCount(rows: seq<Row>)
    requires forall i, j :: 0 <= i < j < |rows| ==> rows[i].name != rows[j].name
    ensures |set i | 0 <= i < |rows| :: rows[i].name| == |rows|
    decreases |rows|
  {
    if rows != [] {
      var init := rows[..|rows| - 1];
      DistinctNamesCount(init);
      var last := rows[|rows| - 1].name;
      var s0 := set i | 0 <= i < |init| :: init[i].name;
      var s := set i | 0 <= i < |rows| :: rows[i].name;
      assert s == s0 + {last};
      assert last !in s0;
    }
  }

  /** Without a filter there is one row per record of the group. */
  lemma UnfilteredRowsCoverGroup(rows: seq<Row>, args: map<string, Entry>)
    requires RowsFor(rows, args, None)
    ensures |rows| == |args|
  {
    DistinctNamesCount(rows);
    var s := set i | 0 <= i < |rows| :: rows[i].name;
    forall n | n in args
      ensures n in s
    {
      assert IsShown(n, args, None);
      var i :| 0 <= i < |rows| && rows[i].name == n;
    }
    forall n | n in s
      ensures n in args
    {
      var i :| 0 <= i < |rows| && rows[i].name == n;
      assert RowFor(rows[i], args, None);
    }
    assert s == args.Keys;
  }

  // ---------------------------------------------------------------------------
  // Listings

  /** What the report shows for a group: a warning, or a table. */
  datatype Listing =
    | NotFound(warning: string)
    | Table(heading: string, headers: seq<string>, rows: seq<Row>, band: Band, footer: seq<string>)

  /** The footer: the total (shown over total when filtered) and the group's PHP band. */
  function Footer(shown: nat, total: nat, filter: Option<Filter>, band: Band): (r: seq<string>)
    ensures |r| == 6 && r[0] == r[2] == r[3] == r[4] == ""
    ensures filter.None? ==> r[1] == "<info>Total [" + NatToString(total) + "]</info>"
    ensures filter.Some? ==> r[1] == "<info>Total [" + NatToString(shown) + "/" + NatToString(total) + "]</info>"
    ensures r[5] == "<info>" + BandString(band.phpMin, band.phpMax) + "</info>"
  {
    var count := if filter.Some? then NatToString(shown) + "/" + NatToString(total) else NatToString(total);
    ["", "<info>Total [" + count + "]</info>", "", "", "", "<info>" + BandString(band.phpMin, band.phpMax) + "</info>"]
  }

  /** The listing the report gives a group. */
  ghost predicate Describes(l: Listing, group: string, args: map<string, Entry>, filter: Option<Filter>) {
    if args == map[] then
      l == NotFound("\n<warning>No " + Title(group) + " found</warning>")
    else
      && l.Table?
      && l.heading == "\n<info>" + Ucfirst(group) + " Analysis</info>\n"
      && l.headers == [" ", Ucfirst(Title(group)), "Matches", "REF", "EXT min/Max", "PHP min/Max"]
      && RowsFor(l.rows, args, filter)
      && (forall f :: Greatest(Get(l.band, f), Get(Baseline, f), args, f))
      && l.footer == Footer(|l.rows|, |args|, filter, l.band)
  }

  /** Without a filter the footer's total is the number of rows. */
  lemma UnfilteredTotalCountsRows(l: Listing, group: string, args: map<string, Entry>)
    requires Describes(l, group, args, None) && l.Table?
    ensures l.footer[1] == "<info>Total [" + NatToString(|l.rows|) + "]</info>"
  {
    UnfilteredRowsCoverGroup(l.rows, args);
  }

  /** The listing of one group. */
  method ListHelper(group: string, args: map<string, Entry>, filter: Option<Filter>) returns (l: Listing)
    ensures Describes(l, group, args, filter)
  {
    var title := Title(group);
    if args == map[] {
      return NotFound("\n<warning>No " + title + " found</warning>");
    }
    var band := GroupBand(args);
    var rows := VersionHelper(args, filter);
    var headers := [" ", Ucfirst(title), "Matches", "REF", "EXT min/Max", "PHP min/Max"];
    l := Table("\n<info>" + Ucfirst(group) + " Analysis</info>\n", headers, rows, band, Footer(|rows|, |args|, filter, band));
  }

  /** The report: every group in order, unfiltered, then the "Requires" line. */
  method Invoke(metrics: Table, phpMin: Version, phpMax: Version) returns (listings: seq<Listing>, requirement: string)
    ensures |listings| == |Groups|
    ensures forall i :: 0 <= i < |Groups| ==> Describes(listings[i], Groups[i].0, GroupOf(metrics, Groups[i].1), None)
    ensures requirement == RequiresLine(phpMin, phpMax)
  {
    listings := [];
    var i := 0;
    while i < |Groups|
      invariant 0 <= i <= |Groups| && |listings| == i
      invariant forall j :: 0 <= j < i ==> Describes(listings[j], Groups[j].0, GroupOf(metrics, Groups[j].1), None)
    {
      var l := ListHelper(Groups[i].0, GroupOf(metrics, Groups[i].1), None);
      listings := listings + [l];
      i := i + 1;
    }
    requirement := RequiresLine(phpMin, phpMax);
  }
}
