/**
 * The pothole report as both scripts see it: a row of the `buracos` table,
 * with the three status strings the application writes.
 */
module Reports {
  import opened Common

  const PENDENTE: string := "Pendente"
  const EM_MANUTENCAO: string := "Em Manutenção"
  const RESOLVIDO: string := "Resolvido"

  /** One of the three statuses the application itself writes. */
  predicate IsKnownStatus(s: string) {
    s == PENDENTE || s == EM_MANUTENCAO || s == RESOLVIDO
  }

  /** A point on the map, in degrees. */
  datatype Coord = Coord(lat: real, lng: real)

  /**
   * A row of the table: `id` is absent for a report not yet stored, `userId`
   * for one created before reporters were tracked. The status is kept as the
   * string the table holds, since both scripts compare it as a string.
   */
  datatype Report = Report(id: Option<int>, lat: real, lng: real, status: string, userId: Option<string>)
  {
    function Pos(): Coord { Coord(lat, lng) }
  }

  /**
   * What a `select` against the table yields: an error, or a data field
   * that may itself be null.
   */
  datatype Query = QueryError | QueryOk(data: Option<seq<Report>>)

  /** The rows a successful query stands for (`data || []`). */
  function Rows(q: Query): seq<Report>
    requires q.QueryOk?
  {
    if q.data.Some? then q.data.value else []
  }

  /** The reports whose status is exactly `status`, in list order. */
  function WithStatus(reports: seq<Report>, status: string): (r: seq<Report>)
    ensures forall i :: 0 <= i < |r| ==> r[i].status == status
    ensures forall i :: 0 <= i < |reports| && reports[i].status == status ==> reports[i] in r
  {
    Filter(reports, (b: Report) => b.status == status)
  }

  /**
   * The selection keeps the list order: selecting from a list split in two
   * is selecting from each part in turn, and a single report is kept
   * exactly when it has the status.
   */
  lemma WithStatusInListOrder(a: seq<Report>, b: seq<Report>, x: Report, status: string)
    ensures WithStatus(a + b, status) == WithStatus(a, status) + WithStatus(b, status)
    ensures WithStatus([x], status) == if x.status == status then [x] else []
  {
    FilterAppend(a, b, (r: Report) => r.status == status);
    FilterSingleton(x, (r: Report) => r.status == status);
  }

  /** `reports.filter(r => r.status === status).length`: the number of reports in that status. */
  function CountStatus(reports: seq<Report>, status: string): (n: nat)
    ensures n == |set i | 0 <= i < |reports| && reports[i].status == status|
    ensures n <= |reports|
    ensures n == 0 <==> forall i :: 0 <= i < |reports| ==> reports[i].status != status
  {
    var r := WithStatus(reports, status);
    WithStatusCount(reports, status);
    assert r != [] ==> r[0] in reports && r[0].status == status;
    |r|
  }

  lemma WithStatusCount(reports: seq<Report>, status: string)
    ensures |WithStatus(reports, status)| == |set i | 0 <= i < |reports| && reports[i].status == status|
  {
    var p := (b: Report) => b.status == status;
    FilterCount(reports, p);
    assert PassingPositions(reports, p) == set i | 0 <= i < |reports| && reports[i].status == status;
  }
}
