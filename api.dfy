/**
 * The `/latest` endpoint (scraper.py:259-268) as a function of the shared
 * `latest_data`. The wall-clock timestamp it reports is a parameter.
 */
module Api {
  import opened Extract
  import opened Scrape

  /** The JSON object the endpoint sends. */
  datatype Body =
    | ErrorBody(error: string)
    | DataBody(timestamp: string, count: nat, data: seq<Record>)

  datatype Response = Response(status: nat, body: Body)

  const NoData: string := "No data yet"

  /**
   * `get_latest`: 503 with an error object exactly when there is no data yet,
   * otherwise 200 with the records, their number and the time of the
   * request.
   */
  function GetLatest(latest: seq<Record>, timestamp: string): (r: Response)
    ensures r.status == 503 <==> latest == []
    ensures r.status == 200 <==> latest != []
    ensures r.body.ErrorBody? <==> r.status == 503
    ensures r.body.ErrorBody? ==> r.body.error == NoData
    ensures r.body.DataBody? ==> r.body.data == latest && r.body.count == |r.body.data| && r.body.timestamp == timestamp
  {
    if latest == [] then Response(503, ErrorBody(NoData))
    else Response(200, DataBody(timestamp, |latest|, latest))
  }

  /** Once the scraper has published data, the endpoint never answers 503 again. */
  lemma ServedOnceScraped(s: LoopState, script: seq<Iteration>, timestamp: string)
    requires s.latest != []
    ensures GetLatest(RunSpec(s, script).latest, timestamp).status == 200
  {
    RunNoRegress(s, script);
  }

  /**
   * The first page that yields records is what the endpoint then serves,
   * with its count; an iteration that yields none leaves the endpoint
   * answering exactly as before.
   */
  lemma ServesLatestParse(s: LoopState, it: Iteration, timestamp: string)
    requires s.status == Running
    ensures it.fetch.Page? && PageRecords(it) != [] ==>
              GetLatest(Step(s, it).latest, timestamp) ==
                Response(200, DataBody(timestamp, |PageRecords(it)|, PageRecords(it)))
    ensures !(it.fetch.Page? && PageRecords(it) != []) ==>
              GetLatest(Step(s, it).latest, timestamp) == GetLatest(s.latest, timestamp)
  {
    StepOutcome(s, it);
  }
}
