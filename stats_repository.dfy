/**
 * The stats server's HitRepository: the hits table, the SELECT text and
 * parameter array getStatistics hands to the database, and what that query
 * computes over the table: hits in an inclusive time window, optionally
 * limited to some uris, grouped per (service, uri), counted over non-null
 * ips (all of them or the distinct ones), and ordered by count descending,
 * then service, then uri.
 */
module StatsRepository {
  import opened Common
  import opened EwmModel
  import Sorting

  /** A hits row; the table allows a null ip. */
  datatype Hit = Hit(service: string, uri: string, ip: Option<string>, dateTime: DateTime)

  /** One result row: a (service, uri) group and its hits_count. */
  datatype Stats = Stats(service: string, uri: string, hits: int)

  // ---------------------------------------------------------------- the query text

  /**
   * The statement text as getStatistics assembles it, cut into fragments:
   * literal text, or a question-mark placeholder the database binds to a
   * parameter.
   */
  datatype Fragment = Literal(text: string) | Placeholder

  function RenderFragment(f: Fragment): string
  {
    if f.Placeholder? then "?" else f.text
  }

  /** The statement text: the fragments concatenated. */
  function Render(fs: seq<Fragment>): string
    decreases |fs|
  {
    if fs == [] then "" else RenderFragment(fs[0]) + Render(fs[1..])
  }

  /** The number of placeholder fragments. */
  function Marks(fs: seq<Fragment>): nat
  {
    multiset(fs)[Placeholder]
  }

  /** No literal fragment contains a question mark. */
  predicate Clean(fs: seq<Fragment>)
  {
    forall i :: 0 <= i < |fs| && fs[i].Literal? ==> '?' !in fs[i].text
  }

  /** String.join(", ", Collections.nCopies(n, "?")). */
  function Placeholders(n: nat): (r: seq<Fragment>)
    ensures Marks(r) == n && Clean(r)
    decreases n
  {
    if n == 0 then []
    else if n == 1 then [Placeholder]
    else
      var rest := Placeholders(n - 1);
      var r := [Placeholder, Literal(", ")] + rest;
      assert r[2..] == rest && r[1..] == [Literal(", ")] + rest && r[1..][1..] == rest;
      assert forall i :: 2 <= i < |r| ==> r[i] == rest[i - 2];
      r
  }

  /** The extra WHERE condition: none without uris. */
  function UrisCondition(uris: seq<string>): (r: seq<Fragment>)
    ensures Marks(r) == |uris| && Clean(r)
  {
    if uris == [] then []
    else
      var ps := Placeholders(|uris|);
      CleanAppend([Literal("AND uri IN (")], ps);
      CleanAppend([Literal("AND uri IN (")] + ps, [Literal(")")]);
      [Literal("AND uri IN (")] + ps + [Literal(")")]
  }

  function CountExpression(unique: bool): string
  {
    if unique then "COUNT(DISTINCT ip)" else "COUNT(ip)"
  }

  /** The text block's first two lines. */
  function SelectLines(unique: bool): seq<Fragment>
  {
    [Literal("SELECT service, uri, "), Literal(CountExpression(unique)), Literal(" as hits_count\nFROM hits\n")]
  }

  /** The time window: its bounds are the statement's first two placeholders. */
  function WindowLine(): seq<Fragment>
  {
    [Literal("WHERE timestamp BETWEEN "), Placeholder, Literal(" AND "), Placeholder, Literal("\n")]
  }

  /** The text block after the uri condition. */
  function OrderLines(): seq<Fragment>
  {
    [Literal("\nGROUP BY service, uri\n"), Literal("ORDER BY hits_count DESC, service, uri\n")]
  }

  /**
   * SQL_SELECT.formatted(count expression, uris condition): the text block
   * with its newline-terminated lines, the window's two placeholders and
   * then the uri condition's.
   */
  function Query(uris: seq<string>, unique: bool): seq<Fragment>
  {
    SelectLines(unique) + WindowLine() + UrisCondition(uris) + OrderLines()
  }

  function QueryText(uris: seq<string>, unique: bool): string
  {
    Render(Query(uris, unique))
  }

  /** A bound parameter: one of the window's ends or a uri. */
  datatype Param = At(time: DateTime) | UriParam(uri: string)

  /** Stream.concat(Stream.of(start, end), uris.stream()).toArray(). */
  function Parameters(start: DateTime, end: DateTime, uris: seq<string>): (r: seq<Param>)
    ensures |r| == 2 + |uris|
    ensures r[0] == At(start) && r[1] == At(end)
    ensures forall i :: 0 <= i < |uris| ==> r[2 + i] == UriParam(uris[i])
  {
    [At(start), At(end)] + seq(|uris|, i requires 0 <= i < |uris| => UriParam(uris[i]))
  }

  /** The number of times c occurs in s. */
  function Occurrences(c: char, s: string): nat
    decreases |s|
  {
    if s == [] then 0 else (if s[0] == c then 1 else 0) + Occurrences(c, s[1..])
  }

  lemma {:induction false} OccurrencesAppend(c: char, a: string, b: string)
    ensures Occurrences(c, a + b) == Occurrences(c, a) + Occurrences(c, b)
    decreases |a|
  {
    if a == [] {
      assert a + b == b;
    } else {
      assert (a + b)[0] == a[0];
      assert (a + b)[1..] == a[1..] + b;
      OccurrencesAppend(c, a[1..], b);
    }
  }

  lemma {:induction false} OccurrencesAbsent(c: char, s: string)
    requires c !in s
    ensures Occurrences(c, s) == 0
    decreases |s|
  {
    if s != [] {
      assert s[0] != c;
      assert forall i :: 0 <= i < |s[1..]| ==> s[1..][i] == s[i + 1];
      OccurrencesAbsent(c, s[1..]);
    }
  }

  /** In clean text, the question marks are exactly the placeholders. */
  lemma {:induction false} RenderMarks(fs: seq<Fragment>)
    requires Clean(fs)
    ensures Occurrences('?', Render(fs)) == Marks(fs)
    decreases |fs|
  {
    if fs != [] {
      assert Clean(fs[1..]) by {
        assert forall i :: 0 <= i < |fs[1..]| ==> fs[1..][i] == fs[i + 1];
      }
      RenderMarks(fs[1..]);
      assert fs == [fs[0]] + fs[1..];
      OccurrencesAppend('?', RenderFragment(fs[0]), Render(fs[1..]));
      if fs[0].Literal? {
        OccurrencesAbsent('?', fs[0].text);
      } else {
        assert "?"[1..] == [];
      }
    }
  }

  lemma CleanAppend(a: seq<Fragment>, b: seq<Fragment>)
    requires Clean(a) && Clean(b)
    ensures Clean(a + b)
  {
    forall i | 0 <= i < |a + b| && (a + b)[i].Literal? ensures '?' !in (a + b)[i].text {
      if i >= |a| {
        assert (a + b)[i] == b[i - |a|];
      }
    }
  }

  // Each fact about the fixed lines is its own lemma: together they overwhelm the solver.
  lemma CountExpressionClean(unique: bool)
    ensures '?' !in CountExpression(unique)
  {
    if unique {
      assert '?' !in "COUNT(DISTINCT ip)";
    } else {
      assert '?' !in "COUNT(ip)";
    }
  }

  lemma SelectMarks(unique: bool)
    ensures Marks(SelectLines(unique)) == 0
  {
  }

  lemma SelectClean(unique: bool)
    ensures Clean(SelectLines(unique))
  {
    CountExpressionClean(unique);
  }

  lemma WindowMarks()
    ensures Marks(WindowLine()) == 2
  {
  }

  lemma WindowClean()
    ensures Clean(WindowLine())
  {
  }

  lemma OrderMarks()
    ensures Marks(OrderLines()) == 0
  {
  }

  lemma OrderClean()
    ensures Clean(OrderLines())
  {
  }

  lemma QueryShape(uris: seq<string>, unique: bool)
    ensures Clean(Query(uris, unique))
    ensures Marks(Query(uris, unique)) == 2 + |uris|
  {
    SelectMarks(unique);
    SelectClean(unique);
    WindowMarks();
    WindowClean();
    OrderMarks();
    OrderClean();
    var a, b, c := SelectLines(unique), WindowLine(), UrisCondition(uris);
    CleanAppend(a, b);
    CleanAppend(a + b, c);
    CleanAppend(a + b + c, OrderLines());
  }

  /**
   * The statement has one question mark per bound parameter: two for the
   * window and one per uri; null or empty uris leave no uri condition.
   */
  lemma QueryMatchesParameters(start: DateTime, end: DateTime, uris: seq<string>, unique: bool)
    ensures Occurrences('?', QueryText(uris, unique)) == |Parameters(start, end, uris)|
    ensures uris == [] ==> Occurrences('?', QueryText(uris, unique)) == 2
  {
    QueryShape(uris, unique);
    RenderMarks(Query(uris, unique));
  }

  // ---------------------------------------------------------------- what the query computes

  /** WHERE timestamp BETWEEN start AND end [AND uri IN (...)]: both ends inclusive. */
  predicate Selected(h: Hit, start: DateTime, end: DateTime, uris: seq<string>)
  {
    start <= h.dateTime <= end && (uris == [] || h.uri in uris)
  }

  function SelectedRows(rows: seq<Hit>, start: DateTime, end: DateTime, uris: seq<string>): (r: seq<Hit>)
    ensures forall h :: h in r <==> h in rows && Selected(h, start, end, uris)
    decreases |rows|
  {
    if rows == [] then []
    else (if Selected(rows[0], start, end, uris) then [rows[0]] else []) + SelectedRows(rows[1..], start, end, uris)
  }

  function Key(h: Hit): (string, string)
  {
    (h.service, h.uri)
  }

  function StatsKey(s: Stats): (string, string)
  {
    (s.service, s.uri)
  }

  predicate DistinctKeys(keys: seq<(string, string)>)
  {
    forall i, j :: 0 <= i < j < |keys| ==> keys[i] != keys[j]
  }

  /** GROUP BY service, uri: each group once, in order of first appearance. */
  function GroupKeys(rows: seq<Hit>): (r: seq<(string, string)>)
    ensures DistinctKeys(r)
    ensures forall h :: h in rows ==> Key(h) in r
    ensures forall k :: k in r ==> exists h :: h in rows && Key(h) == k
    decreases |rows|
  {
    if rows == [] then []
    else
      var init := GroupKeys(rows[..|rows| - 1]);
      var last := rows[|rows| - 1];
      assert forall h :: h in rows ==> h in rows[..|rows| - 1] || h == last;
      if Key(last) in init then init else init + [Key(last)]
  }

  /** COUNT(ip) over a group: rows with a null ip do not count, an empty ip does. */
  function CountIp(rows: seq<Hit>, key: (string, string)): nat
    decreases |rows|
  {
    if rows == [] then 0
    else (if Key(rows[0]) == key && rows[0].ip.Some? then 1 else 0) + CountIp(rows[1..], key)
  }

  /** The non-null ips of a group, for COUNT(DISTINCT ip). */
  function DistinctIps(rows: seq<Hit>, key: (string, string)): set<string>
    decreases |rows|
  {
    if rows == [] then {}
    else (if Key(rows[0]) == key && rows[0].ip.Some? then {rows[0].ip.value} else {}) + DistinctIps(rows[1..], key)
  }

  function HitsCount(rows: seq<Hit>, key: (string, string), unique: bool): nat
  {
    if unique then |DistinctIps(rows, key)| else CountIp(rows, key)
  }

  /** A row added to the table counts once for its own group under COUNT(ip) exactly when its ip is not null. */
  lemma {:induction false} CountIpAppend(rows: seq<Hit>, h: Hit, key: (string, string))
    ensures CountIp(rows + [h], key) == CountIp(rows, key) + (if Key(h) == key && h.ip.Some? then 1 else 0)
    ensures DistinctIps(rows + [h], key) == DistinctIps(rows, key) + (if Key(h) == key && h.ip.Some? then {h.ip.value} else {})
    decreases |rows|
  {
    if rows != [] {
      assert (rows + [h])[1..] == rows[1..] + [h];
      CountIpAppend(rows[1..], h, key);
    }
  }

  /** A group all of whose rows have a null ip still forms a group, with zero hits under either count. */
  lemma {:induction false} NullIpsNotCounted(rows: seq<Hit>, key: (string, string), unique: bool)
    requires forall i :: 0 <= i < |rows| ==> rows[i].ip.None?
    ensures HitsCount(rows, key, unique) == 0
    decreases |rows|
  {
    if rows != [] {
      NullIpsNotCounted(rows[1..], key, unique);
      assert DistinctIps(rows, key) == DistinctIps(rows[1..], key);
    }
  }

  /** Per group, the distinct count never exceeds the total count. */
  lemma {:induction false} UniqueAtMostTotal(rows: seq<Hit>, key: (string, string))
    ensures HitsCount(rows, key, true) <= HitsCount(rows, key, false)
    decreases |rows|
  {
    if rows != [] {
      UniqueAtMostTotal(rows[1..], key);
      var ips := DistinctIps(rows[1..], key);
      if Key(rows[0]) == key && rows[0].ip.Some? {
        assert |{rows[0].ip.value} + ips| <= |ips| + 1 by {
          if rows[0].ip.value in ips {
            assert {rows[0].ip.value} + ips == ips;
          }
        }
      } else {
        assert {} + ips == ips;
      }
    }
  }

  /** Lexicographic order by character code. */
  predicate StringLe(a: string, b: string)
    decreases |a|
  {
    |a| == 0 || (|b| > 0 && (a[0] < b[0] || (a[0] == b[0] && StringLe(a[1..], b[1..]))))
  }

  predicate StringLt(a: string, b: string)
  {
    StringLe(a, b) && a != b
  }

  lemma {:induction false} StringLeTotal(a: string, b: string)
    ensures StringLe(a, b) || StringLe(b, a)
    decreases |a|
  {
    if |a| > 0 && |b| > 0 && a[0] == b[0] {
      StringLeTotal(a[1..], b[1..]);
    }
  }

  lemma {:induction false} StringLeTransitive(a: string, b: string, c: string)
    requires StringLe(a, b) && StringLe(b, c)
    ensures StringLe(a, c)
    decreases |a|
  {
    if |a| > 0 && a[0] == b[0] && b[0] == c[0] {
      StringLeTransitive(a[1..], b[1..], c[1..]);
    }
  }

  lemma {:induction false} StringLeAntisymmetric(a: string, b: string)
    requires StringLe(a, b) && StringLe(b, a)
    ensures a == b
    decreases |a|
  {
    if |a| > 0 {
      StringLeAntisymmetric(a[1..], b[1..]);
      assert a == [a[0]] + a[1..] && b == [b[0]] + b[1..];
    }
  }

  /** ORDER BY hits_count DESC, service, uri: x may come before y. */
  predicate StatsLe(x: Stats, y: Stats)
  {
    x.hits > y.hits
    || (x.hits == y.hits && (StringLt(x.service, y.service) || (x.service == y.service && StringLe(x.uri, y.uri))))
  }

  lemma StatsLeIsOrder()
    ensures Sorting.Total(StatsLe) && Sorting.Transitive(StatsLe)
  {
    forall x: Stats, y: Stats ensures StatsLe(x, y) || StatsLe(y, x) {
      StringLeTotal(x.service, y.service);
      StringLeTotal(x.uri, y.uri);
    }
    forall x: Stats, y: Stats, z: Stats | StatsLe(x, y) && StatsLe(y, z) ensures StatsLe(x, z) {
      if x.hits == y.hits == z.hits {
        if StringLt(x.service, y.service) && StringLt(y.service, z.service) {
          StringLeTransitive(x.service, y.service, z.service);
          if x.service == z.service {
            StringLeAntisymmetric(x.service, y.service);
          }
        } else if x.service == y.service && y.service == z.service {
          StringLeTransitive(x.uri, y.uri, z.uri);
        }
      }
    }
  }

  /** One result row per group, in group order. */
  function Groups(selected: seq<Hit>, unique: bool): seq<Stats>
  {
    var keys := GroupKeys(selected);
    seq(|keys|, i requires 0 <= i < |keys| => Stats(keys[i].0, keys[i].1, HitsCount(selected, keys[i], unique)))
  }

  /** The result rows of the SELECT over a table. */
  function Aggregate(rows: seq<Hit>, start: DateTime, end: DateTime, uris: seq<string>, unique: bool): seq<Stats>
  {
    Sorting.SortBy(Groups(SelectedRows(rows, start, end, uris), unique), StatsLe)
  }

  lemma AggregateRowIsGroup(rows: seq<Hit>, start: DateTime, end: DateTime, uris: seq<string>, unique: bool, j: int)
    requires 0 <= j < |Aggregate(rows, start, end, uris, unique)|
    ensures Aggregate(rows, start, end, uris, unique)[j] in Groups(SelectedRows(rows, start, end, uris), unique)
  {
    var groups := Groups(SelectedRows(rows, start, end, uris), unique);
    var r := Aggregate(rows, start, end, uris, unique);
    assert r[j] in r;
    Sorting.SortByMembers(groups, StatsLe, r[j]);
  }

  /** Every result row is the group of some hit in the window, and carries that group's count. */
  lemma AggregateFromWindow(rows: seq<Hit>, start: DateTime, end: DateTime, uris: seq<string>, unique: bool)
    ensures var r := Aggregate(rows, start, end, uris, unique);
      forall j :: 0 <= j < |r| ==>
        && (exists h :: h in rows && Selected(h, start, end, uris) && Key(h) == StatsKey(r[j]))
        && r[j].hits == HitsCount(SelectedRows(rows, start, end, uris), StatsKey(r[j]), unique)
  {
    var selected := SelectedRows(rows, start, end, uris);
    var keys := GroupKeys(selected);
    var groups := Groups(selected, unique);
    var r := Aggregate(rows, start, end, uris, unique);
    forall j | 0 <= j < |r|
      ensures exists h :: h in rows && Selected(h, start, end, uris) && Key(h) == StatsKey(r[j])
      ensures r[j].hits == HitsCount(selected, StatsKey(r[j]), unique)
    {
      AggregateRowIsGroup(rows, start, end, uris, unique, j);
      var i :| 0 <= i < |groups| && groups[i] == r[j];
      assert StatsKey(r[j]) == keys[i] && keys[i] in keys;
    }
  }

  /** Every hit in the window has its group among the result rows. */
  lemma AggregateCoversWindow(rows: seq<Hit>, start: DateTime, end: DateTime, uris: seq<string>, unique: bool)
    ensures var r := Aggregate(rows, start, end, uris, unique);
      forall h :: h in rows && Selected(h, start, end, uris) ==> exists j :: 0 <= j < |r| && StatsKey(r[j]) == Key(h)
  {
    var selected := SelectedRows(rows, start, end, uris);
    var keys := GroupKeys(selected);
    var groups := Groups(selected, unique);
    var r := Aggregate(rows, start, end, uris, unique);
    forall h | h in rows && Selected(h, start, end, uris)
      ensures exists j :: 0 <= j < |r| && StatsKey(r[j]) == Key(h)
    {
      assert h in selected;
      var i :| 0 <= i < |keys| && keys[i] == Key(h);
      assert groups[i] in groups;
      Sorting.SortByMembers(groups, StatsLe, groups[i]);
      var j :| 0 <= j < |r| && r[j] == groups[i];
      assert StatsKey(r[j]) == Key(h);
    }
  }

  /** No group appears twice in the result. */
  lemma AggregateDistinct(rows: seq<Hit>, start: DateTime, end: DateTime, uris: seq<string>, unique: bool)
    ensures var r := Aggregate(rows, start, end, uris, unique);
      forall j, k :: 0 <= j < k < |r| ==> StatsKey(r[j]) != StatsKey(r[k])
  {
    var selected := SelectedRows(rows, start, end, uris);
    var keys := GroupKeys(selected);
    var groups := Groups(selected, unique);
    assert forall i :: 0 <= i < |groups| ==> StatsKey(groups[i]) == keys[i];
    Sorting.PermutationKeepsDistinctKeys(groups, Aggregate(rows, start, end, uris, unique), StatsKey);
  }

  /** ORDER BY hits_count DESC, service, uri. */
  lemma AggregateOrdered(rows: seq<Hit>, start: DateTime, end: DateTime, uris: seq<string>, unique: bool)
    ensures Sorting.SortedBy(Aggregate(rows, start, end, uris, unique), StatsLe)
  {
    StatsLeIsOrder();
    Sorting.SortBySorted(Groups(SelectedRows(rows, start, end, uris), unique), StatsLe);
  }

  lemma {:induction false} NothingSelected(rows: seq<Hit>, start: DateTime, end: DateTime, uris: seq<string>)
    requires start > end
    ensures SelectedRows(rows, start, end, uris) == []
    decreases |rows|
  {
    if rows != [] {
      NothingSelected(rows[1..], start, end, uris);
    }
  }

  /** An empty window (start after end) yields no rows; start == end counts the hits at exactly that instant. */
  lemma WindowBounds(rows: seq<Hit>, start: DateTime, end: DateTime, uris: seq<string>, unique: bool)
    ensures start > end ==> Aggregate(rows, start, end, uris, unique) == []
    ensures forall h :: h in rows && h.dateTime == start && (uris == [] || h.uri in uris) ==>
      exists j :: 0 <= j < |Aggregate(rows, start, start, uris, unique)| && StatsKey(Aggregate(rows, start, start, uris, unique)[j]) == Key(h)
  {
    if start > end {
      NothingSelected(rows, start, end, uris);
    }
    AggregateCoversWindow(rows, start, start, uris, unique);
  }

  // ---------------------------------------------------------------- the repository

  class HitRepository {
    /** The hits table in insertion order. */
    var hits: seq<Hit>

    constructor()
      ensures hits == []
    {
      hits := [];
    }

    /** save: INSERT INTO hits. */
    method Save(hit: Hit)
      modifies this
      ensures hits == old(hits) + [hit]
    {
      hits := hits + [hit];
    }

    /**
     * getStatistics: null uris are an empty list. Returns the query text and
     * parameters it binds together with the rows the database answers.
     */
    method GetStatistics(start: DateTime, end: DateTime, uris: Option<seq<string>>, unique: bool)
      returns (query: string, params: seq<Param>, result: seq<Stats>)
      ensures var list := if uris.Some? then uris.value else [];
        && query == QueryText(list, unique)
        && params == Parameters(start, end, list)
        && Occurrences('?', query) == |params|
        && result == Aggregate(hits, start, end, list, unique)
    {
      var list := if uris.Some? then uris.value else [];
      query := QueryText(list, unique);
      params := Parameters(start, end, list);
      QueryMatchesParameters(start, end, list, unique);
      result := Aggregate(hits, start, end, list, unique);
    }
  }
}
