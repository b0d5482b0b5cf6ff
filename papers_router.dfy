/** backend/app/routers/papers.py: every publication, newest year first; one
    publication by id; the creation of a publication. */
module PapersRouter {
  import opened Wrappers
  import opened Schemas
  import opened Listing

  /** The `publications` table: its rows in insertion order and the next id. */
  class PublicationTable {
    var rows: seq<PublicationResponse>
    var nextId: int

    ghost predicate Valid()
      reads this
    {
      nextId >= 1 &&
      (forall i :: 0 <= i < |rows| ==> 1 <= rows[i].id < nextId) &&
      (forall i, j :: 0 <= i < j < |rows| ==> rows[i].id < rows[j].id) &&
      (forall i :: 0 <= i < |rows| ==> rows[i].paper.order.Some?)
    }

    constructor ()
      ensures Valid() && rows == []
    {
      rows := [];
      nextId := 1;
    }

    /** `create_publication`: one new row with the payload as stored and a fresh id. */
    method CreatePublication(paper: Publication) returns (r: PublicationResponse)
      requires Valid()
      modifies this
      ensures Valid()
      ensures r.paper == StoredPublication(paper)
      ensures rows == old(rows) + [r]
      ensures forall x :: x in old(rows) ==> x.id != r.id
    {
      r := PublicationResponse(nextId, StoredPublication(paper));
      rows := rows + [r];
      nextId := nextId + 1;
    }
  }

  /** The row the ORM inserts for a publication: a None `order` is not sent, so the
      column default 0 is stored instead. Every other field is stored as given, a NULL
      `year` included. */
  function StoredPublication(paper: Publication): (s: Publication)
    ensures s.order == Some(paper.order.GetOr(0))
    ensures s.(order := paper.order) == paper
  {
    paper.(order := Some(paper.order.GetOr(0)))
  }

  /** `order_by(year.desc(), order)`: a later year first; within one year (NULL
      included) the smaller `order` first. */
  predicate PaperBefore(a: PublicationResponse, b: PublicationResponse, nullsLargest: bool) {
    DescLe(a.paper.year, b.paper.year, nullsLargest) &&
    (a.paper.year == b.paper.year ==> AscLe(a.paper.order, b.paper.order, nullsLargest))
  }

  lemma PaperBeforeIsTotalPreorder(nullsLargest: bool)
    ensures TotalPreorder((a, b) => PaperBefore(a, b, nullsLargest))
  {
    var le := (a, b) => PaperBefore(a, b, nullsLargest);
    forall a, b, c | le(a, b) && le(b, c) ensures le(a, c) {
      AscLeAntisymmetric(a.paper.year, b.paper.year, nullsLargest);
      AscLeAntisymmetric(b.paper.year, c.paper.year, nullsLargest);
      AscLeAntisymmetric(a.paper.year, c.paper.year, nullsLargest);
    }
  }

  /** `get_all_publications()`: every row, sorted by year (latest first) and then by
      `order`; `nullsLargest` is where the database puts a NULL year or order. */
  function GetAllPublications(rows: seq<PublicationResponse>, nullsLargest: bool): (r: seq<PublicationResponse>)
    ensures multiset(r) == multiset(rows)
    ensures SortedBy(r, (a, b) => PaperBefore(a, b, nullsLargest))
  {
    PaperBeforeIsTotalPreorder(nullsLargest);
    SortBySorted(rows, (a, b) => PaperBefore(a, b, nullsLargest));
    SortBy(rows, (a, b) => PaperBefore(a, b, nullsLargest))
  }

  /** Of two listed publications with known years, the earlier-listed one is not older;
      with the same year, its `order` is not larger. */
  lemma ListedByYearThenOrder(rows: seq<PublicationResponse>, nullsLargest: bool, i: int, j: int)
    requires var r := GetAllPublications(rows, nullsLargest); 0 <= i < j < |r|
    ensures var r := GetAllPublications(rows, nullsLargest);
            var a, b := r[i].paper, r[j].paper;
            (a.year.Some? && b.year.Some? ==> a.year.value >= b.year.value) &&
            (a.year == b.year && a.order.Some? && b.order.Some? ==> a.order.value <= b.order.value)
  {
    var r := GetAllPublications(rows, nullsLargest);
    assert PaperBefore(r[i], r[j], nullsLargest);
  }

  /** `get_publication(paper_id)`: the row with that id, or a 404. */
  function GetPublication(rows: seq<PublicationResponse>, paperId: int): (r: Result<PublicationResponse, HttpError>)
    ensures r.Success? ==> r.value in rows && r.value.id == paperId
    ensures r.Failure? <==> forall x :: x in rows ==> x.id != paperId
    ensures r.Failure? ==> r.error == HttpError(404, "Publication not found")
  {
    match First(rows, (p: PublicationResponse) => p.id == paperId)
    case Some(p) => Success(p)
    case None => Failure(HttpError(404, "Publication not found"))
  }
}
