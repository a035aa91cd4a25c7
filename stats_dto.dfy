/**
 * The statistics service's wire records (stats-dto), shared by the stats
 * server and the services that call it.
 */
module StatsDto {
  import opened EwmModel

  /** HitDto: validation makes every field non-blank, so ip is never null here. */
  datatype HitDto = HitDto(service: string, uri: string, ip: string, dateTime: DateTime)

  /** StatsDtoOut: hits of one (app, uri) group; `app` is the JSON name of service. */
  datatype StatsDtoOut = StatsDtoOut(service: string, uri: string, hits: int)
}
