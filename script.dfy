/**
 * The citizen client (script.js): the duplicate check run before a new
 * report is sent, the ownership rule for removing a report, the sidebar
 * counters, and the client's own state (loaded reports, map markers).
 */
module Citizen {
  import opened Common
  import opened Reports

  /**
   * The position in `reported` of the first report at distance at most
   * `threshold` from `pos` (the bound is inclusive); none when every report
   * is farther. The first match in list order wins, not the nearest.
   */
  function DuplicateIndex(reported: seq<Report>, pos: Coord, dist: (Coord, Coord) -> real, threshold: real): (r: Option<nat>)
    ensures r.None? <==> forall j :: 0 <= j < |reported| ==> dist(pos, reported[j].Pos()) > threshold
    ensures r.Some? ==>
      r.value < |reported| && dist(pos, reported[r.value].Pos()) <= threshold &&
      forall j :: 0 <= j < r.value ==> dist(pos, reported[j].Pos()) > threshold
    decreases |reported|
  {
    if reported == [] then None
    else if dist(pos, reported[0].Pos()) <= threshold then Some(0)
    else
      match DuplicateIndex(reported[1..], pos, dist, threshold)
      case None => None
      case Some(k) => Some(k + 1)
  }

  /**
   * `verificarDuplicata`: a `for ... of` scan over the loaded reports that
   * returns the first one within the threshold. It changes nothing.
   */
  method FindDuplicate(reported: seq<Report>, pos: Coord, dist: (Coord, Coord) -> real, threshold: real)
    returns (dup: Option<Report>)
    ensures dup.None? <==> DuplicateIndex(reported, pos, dist, threshold).None?
    ensures dup.Some? ==> dup.value == reported[DuplicateIndex(reported, pos, dist, threshold).value]
  {
    for i := 0 to |reported|
      invariant forall j :: 0 <= j < i ==> dist(pos, reported[j].Pos()) > threshold
    {
      var distance := dist(pos, reported[i].Pos());
      if distance <= threshold {
        return Some(reported[i]);
      }
    }
    return None;
  }

  /** The row `reportarBuraco` builds: not yet stored, Pendente, owned by the current user. */
  function NewReport(pos: Coord, userId: string): (b: Report)
    ensures b.id.None? && b.Pos() == pos && b.status == PENDENTE && b.userId == Some(userId)
  {
    Report(None, pos.lat, pos.lng, PENDENTE, Some(userId))
  }

  /** What `reportarBuraco` does with a position: stop at a duplicate, or send the new row. */
  datatype Submission = Duplicate(existing: Report) | Submitted(row: Report)

  /** JavaScript truthiness of an optional string: absent or empty is false. */
  predicate Truthy(s: Option<string>) {
    s.Some? && s.value != ""
  }

  /** The sidebar's `isOwner`: the report has no owner, or its owner is the current user. */
  predicate IsOwner(b: Report, userId: string) {
    !Truthy(b.userId) || b.userId.value == userId
  }

  /** The argument a Remover button passes, `buraco.id || index`: a missing or zero id falls back to the row index. */
  function RemoveArgument(b: Report, index: nat): (arg: int)
    ensures b.id.Some? && b.id.value != 0 ==> arg == b.id.value
    ensures !(b.id.Some? && b.id.value != 0) ==> arg == index
  {
    if b.id.Some? && b.id.value != 0 then b.id.value else index
  }

  /** `buracosReportados.find(b => b.id === id)`, as a position: the first report with that id. */
  function FindById(reported: seq<Report>, id: int): (r: Option<nat>)
    ensures r.None? <==> forall j :: 0 <= j < |reported| ==> reported[j].id != Some(id)
    ensures r.Some? ==>
      r.value < |reported| && reported[r.value].id == Some(id) &&
      forall j :: 0 <= j < r.value ==> reported[j].id != Some(id)
    decreases |reported|
  {
    if reported == [] then None
    else if reported[0].id == Some(id) then Some(0)
    else
      match FindById(reported[1..], id)
      case None => None
      case Some(k) => Some(k + 1)
  }

  /** The outcome of the checks `removerBuraco` makes before asking for confirmation. */
  datatype Removal = NotFound | NotOwner(owner: string) | Permitted(target: Report)

  /**
   * `removerBuraco`'s checks: the report must be found by id, and a report
   * with an owner may be removed only by that owner.
   */
  function RemovalCheck(reported: seq<Report>, id: int, userId: string): (r: Removal)
    ensures r.NotFound? <==> forall j :: 0 <= j < |reported| ==> reported[j].id != Some(id)
    ensures r.Permitted? ==> r.target in reported && r.target.id == Some(id) && IsOwner(r.target, userId)
    ensures r.NotOwner? ==> r.owner != "" && r.owner != userId
    ensures FindById(reported, id).Some? ==>
      var b := reported[FindById(reported, id).value];
      (r.Permitted? <==> IsOwner(b, userId)) &&
      (r.Permitted? ==> r.target == b) &&
      (r.NotOwner? ==> Some(r.owner) == b.userId)
  {
    match FindById(reported, id)
    case None => NotFound
    case Some(i) =>
      var b := reported[i];
      if Truthy(b.userId) && b.userId.value != userId then NotOwner(b.userId.value) else Permitted(b)
  }

  /**
   * The two copies of the ownership rule agree: for a stored report (the
   * first row with its id), the sidebar shows a Remover button exactly when
   * pressing it passes the removal check, and then it targets that report.
   */
  lemma RemoveButtonAgrees(reported: seq<Report>, index: nat, userId: string)
    requires index < |reported|
    requires reported[index].id.Some? && reported[index].id.value != 0
    requires forall j :: 0 <= j < index ==> reported[j].id != reported[index].id
    ensures IsOwner(reported[index], userId) <==>
      RemovalCheck(reported, RemoveArgument(reported[index], index), userId) == Permitted(reported[index])
    ensures !IsOwner(reported[index], userId) ==>
      RemovalCheck(reported, RemoveArgument(reported[index], index), userId).NotOwner?
  {
    var id := reported[index].id.value;
    var k := FindById(reported, id);
    assert k.Some?;
    assert k.value == index;
  }

  /**
   * A row without an id passes its index to the Remover button, and the
   * lookup by id never finds that row: the check either reports it missing
   * or lands on another report whose id equals the index.
   */
  lemma UnsavedRowNotRemovable(reported: seq<Report>, index: nat, userId: string)
    requires index < |reported| && reported[index].id.None?
    ensures var r := RemovalCheck(reported, RemoveArgument(reported[index], index), userId);
      r.Permitted? ==> r.target != reported[index] && r.target.id == Some(index)
  {
  }

  /** The two counters the sidebar shows. */
  datatype SidebarCounts = SidebarCounts(total: nat, pending: nat)

  /** `atualizarSidebar`'s counters: all loaded reports, and those Pendente. */
  function Sidebar(reported: seq<Report>): (c: SidebarCounts)
    ensures c.total == |reported| && c.pending <= c.total
    ensures c.pending == |set i | 0 <= i < |reported| && reported[i].status == PENDENTE|
    ensures c.pending == 0 <==> forall i :: 0 <= i < |reported| ==> reported[i].status != PENDENTE
  {
    SidebarCounts(|reported|, CountStatus(reported, PENDENTE))
  }

  /** The marker positions for a list of reports, one per report in order. */
  function Positions(reports: seq<Report>): (ps: seq<Coord>)
    ensures |ps| == |reports| && forall i :: 0 <= i < |reports| ==> ps[i] == reports[i].Pos()
  {
    seq(|reports|, (i: int) requires 0 <= i < |reports| => reports[i].Pos())
  }

  /**
   * The client's module-level state: the reports loaded from the table
   * (`buracosReportados`), the map markers (kept by position) and the
   * current user's id.
   */
  class Client {
    var reported: seq<Report>
    var markers: seq<Coord>
    const userId: string

    constructor (userId: string)
      ensures reported == [] && markers == [] && this.userId == userId
    {
      reported := [];
      markers := [];
      this.userId := userId;
    }

    /** `limparMarcadores`: every marker leaves the map and the list is emptied. */
    method ClearMarkers()
      modifies this`markers
      ensures markers == []
    {
      markers := [];
    }

    /** `adicionarMarcador`: one more marker, at the report's position. */
    method AddMarker(b: Report)
      modifies this`markers
      ensures markers == old(markers) + [b.Pos()]
    {
      markers := markers + [b.Pos()];
    }

    /**
     * `carregarBuracos`: the markers are cleared first; on an error the
     * loaded list stays as it was (with no markers left), otherwise the rows
     * replace it and get one marker each.
     */
    method LoadPotholes(q: Query)
      modifies this`markers, this`reported
      ensures q.QueryError? ==> reported == old(reported) && markers == []
      ensures q.QueryOk? ==> reported == Rows(q) && markers == Positions(Rows(q))
    {
      ClearMarkers();
      if q.QueryError? {
        return;
      }
      var data := Rows(q);
      reported := data;
      for i := 0 to |data|
        invariant reported == data
        invariant markers == Positions(data[..i])
      {
        AddMarker(data[i]);
      }
      assert data[..|data|] == data;
    }

    /**
     * The decision part of `reportarBuraco` at position `pos`: a report
     * within the threshold stops it with nothing changed; otherwise the new
     * row is sent, and when the insert returns rows the first one gets a
     * marker. The loaded list is not refreshed, so a second report at the
     * same spot is not caught until the next load.
     */
    method ReportPothole(pos: Coord, dist: (Coord, Coord) -> real, threshold: real, inserted: Query)
      returns (outcome: Submission)
      modifies this`markers
      ensures reported == old(reported)
      ensures outcome.Duplicate? <==> DuplicateIndex(reported, pos, dist, threshold).Some?
      ensures outcome.Duplicate? ==>
        outcome.existing == reported[DuplicateIndex(reported, pos, dist, threshold).value] &&
        markers == old(markers)
      ensures outcome.Submitted? ==>
        outcome.row == NewReport(pos, userId) &&
        markers == old(markers) + (if inserted.QueryOk? && Rows(inserted) != [] then [Rows(inserted)[0].Pos()] else [])
    {
      var row := NewReport(pos, userId);
      var duplicate := FindDuplicate(reported, pos, dist, threshold);
      if duplicate.Some? {
        return Duplicate(duplicate.value);
      }
      if inserted.QueryOk? && Rows(inserted) != [] {
        AddMarker(Rows(inserted)[0]);
      }
      return Submitted(row);
    }
  }
}
