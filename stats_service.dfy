/**
 * The stats server's HitService: records a hit, and answers a statistics
 * request after checking that the window is not reversed.
 */
module StatsService {
  import opened Common
  import opened EwmModel
  import opened StatsDto
  import opened StatsRepository

  /** HitMapper.toHit: every field copied; a recorded hit always has an ip. */
  function ToHit(dto: HitDto): (h: Hit)
    ensures h.service == dto.service && h.uri == dto.uri && h.dateTime == dto.dateTime
    ensures h.ip == Some(dto.ip)
  {
    Hit(dto.service, dto.uri, Some(dto.ip), dto.dateTime)
  }

  /** StatsMapper.toDto. */
  function ToDto(s: Stats): (d: StatsDtoOut)
    ensures d.service == s.service && d.uri == s.uri && d.hits == s.hits
  {
    StatsDtoOut(s.service, s.uri, s.hits)
  }

  /** ParameterInvalidException: the window's start is after its end. */
  datatype StatsFailure = StartAfterEnd

  /** What getStatistics answers for a table of hits. */
  function Statistics(rows: seq<Hit>, start: DateTime, end: DateTime, uris: Option<seq<string>>, unique: bool)
    : (r: Result<seq<StatsDtoOut>, StatsFailure>)
    ensures r.Failure? <==> start > end
    ensures r.Success? ==> var stats := Aggregate(rows, start, end, if uris.Some? then uris.value else [], unique);
      |r.value| == |stats| && forall i :: 0 <= i < |stats| ==> r.value[i] == ToDto(stats[i])
  {
    if start > end then Failure(StartAfterEnd)
    else
      var stats := Aggregate(rows, start, end, if uris.Some? then uris.value else [], unique);
      Success(seq(|stats|, i requires 0 <= i < |stats| => ToDto(stats[i])))
  }

  lemma {:induction false} SelectedRowsAppend(rows: seq<Hit>, h: Hit, start: DateTime, end: DateTime, uris: seq<string>)
    ensures SelectedRows(rows + [h], start, end, uris)
      == SelectedRows(rows, start, end, uris) + (if Selected(h, start, end, uris) then [h] else [])
    decreases |rows|
  {
    if rows == [] {
      assert rows + [h] == [h];
    } else {
      assert (rows + [h])[0] == rows[0];
      assert (rows + [h])[1..] == rows[1..] + [h];
      SelectedRowsAppend(rows[1..], h, start, end, uris);
    }
  }

  /**
   * Recording a hit inside a query's window adds one to its own group's
   * count and adds its ip to that group's distinct ips; every other group,
   * and every query whose window or uri list excludes the hit, is unchanged.
   */
  lemma RecordedHitCounts(rows: seq<Hit>, dto: HitDto, start: DateTime, end: DateTime, uris: seq<string>, key: (string, string))
    ensures var h := ToHit(dto);
      var before := SelectedRows(rows, start, end, uris);
      var after := SelectedRows(rows + [h], start, end, uris);
      && HitsCount(after, key, false)
        == HitsCount(before, key, false) + (if Selected(h, start, end, uris) && key == Key(h) then 1 else 0)
      && DistinctIps(after, key)
        == DistinctIps(before, key) + (if Selected(h, start, end, uris) && key == Key(h) then {dto.ip} else {})
  {
    var h := ToHit(dto);
    var before := SelectedRows(rows, start, end, uris);
    SelectedRowsAppend(rows, h, start, end, uris);
    if Selected(h, start, end, uris) {
      CountIpAppend(before, h, key);
    } else {
      assert before + [] == before;
    }
  }

  class HitService {
    const repository: HitRepository

    constructor(repository: HitRepository)
      ensures this.repository == repository
    {
      this.repository := repository;
    }

    /** add: the hit is appended to the table. */
    method Add(dto: HitDto)
      modifies repository
      ensures repository.hits == old(repository.hits) + [ToHit(dto)]
    {
      repository.Save(ToHit(dto));
    }

    /**
     * getStatistics: a reversed window fails before the database is asked;
     * otherwise the repository's rows, in its order, as wire records.
     */
    method GetStatistics(start: DateTime, end: DateTime, uris: Option<seq<string>>, unique: bool)
      returns (r: Result<seq<StatsDtoOut>, StatsFailure>)
      ensures r == Statistics(repository.hits, start, end, uris, unique)
    {
      if start > end {
        return Failure(StartAfterEnd);
      }
      var query, params, rows := repository.GetStatistics(start, end, uris, unique);
      r := Success(seq(|rows|, k requires 0 <= k < |rows| => ToDto(rows[k])));
    }
  }
}
