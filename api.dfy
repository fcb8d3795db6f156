/**
 * The endpoints of the server over its state: the database and the
 * process-wide `currentStoredLink`, which is null until a link is submitted
 * and is never cleared. Fetching a page is a parameter: `fetch(link)` is what
 * `axios.get(link)` yields for that link.
 */
module Api {
  import opened Http
  import opened Strings
  import opened Table
  import opened Grouping
  import opened Store

  /** The phrase a vendor page shows once its link has expired (two spaces after the full stop). */
  const INVALID_MESSAGE :=
    "The link you have provided is no longer valid.  If you feel this is in error, please contact"

  const MSG_INSERTED := "Data inserted successfully"
  const MSG_LINK_STORED := "Link stored successfully"
  const MSG_LINK_INVALID := "Link contains the invalid message"
  const MSG_STATUS_UPDATED := "Delivery Status updated successfully"

  /** The fetched body shows the expiry phrase. */
  predicate Expired(body: string)
  {
    Contains(body, INVALID_MESSAGE)
  }

  /** JavaScript's `!link` for a value that is a string, null or undefined. */
  predicate Falsy(link: Option<string>)
  {
    link.None? || link.value == ""
  }

  /** What `validateLink` does with its promise: rejects with a message, or resolves to a text. */
  datatype Validation = Thrown(message: string) | Returned(text: string)

  /** The groups of `grouped` whose keys are in `keys`. */
  function Restrict(grouped: Tree, keys: set<string>): (r: Tree)
    ensures r.Keys == grouped.Keys * keys
    ensures forall g :: g in r ==> r[g] == grouped[g]
  {
    map g | g in grouped.Keys * keys :: grouped[g]
  }

  /** Setting one more produced group extends the groups already set by that one. */
  lemma RestrictStep(t: Tree, grouped: Tree, done: set<string>, g: string)
    requires g in grouped
    ensures SetGroups(t, Restrict(grouped, done))[g := grouped[g]] ==
      SetGroups(t, Restrict(grouped, done + {g}))
  {
  }

  class Server {
    const db: Database
    /** `currentStoredLink`: None stands for null (and for undefined). */
    var currentStoredLink: Option<string>

    constructor (db: Database)
      ensures this.db == db && currentStoredLink == None
    {
      this.db := db;
      currentStoredLink := None;
    }

    /**
     * `POST /api/insertData`: extract the records of the page at `link`, group
     * them, and set every produced group subtree. A page that extraction
     * turns into null, or an included record without the date cell, fails
     * the request before anything is written.
     */
    method InsertData(link: string, fetch: string -> Page) returns (res: Response)
      modifies db
      ensures db.vendorLinks == old(db.vendorLinks)
      ensures !Accepted(fetch(link)) ==>
        res == Response(500, Error(NullTableData)) && db.poRef == old(db.poRef)
      ensures Accepted(fetch(link)) && !AllDated(TableRecords(fetch(link).rows)) ==>
        res == Response(500, Error(UndefinedDateField)) && db.poRef == old(db.poRef)
      ensures Accepted(fetch(link)) && AllDated(TableRecords(fetch(link).rows)) ==>
        res == Response(200, Message(MSG_INSERTED)) &&
        db.poRef == SetGroups(old(db.poRef), Grouped(TableRecords(fetch(link).rows)))
    {
      var tableData := ExtractTableData(fetch(link));
      if tableData.None? {
        return Response(500, Error(NullTableData));
      }
      var groupedData := GroupRecords(tableData.value);
      if groupedData.None? {
        return Response(500, Error(UndefinedDateField));
      }
      WriteGroups(groupedData.value);
      return Response(200, Message(MSG_INSERTED));
    }

    /**
     * The write loop of `POST /api/insertData`: one `set` per produced group,
     * each replacing that group's subtree; the order of the writes does not
     * matter, since distinct groups are distinct paths.
     */
    method WriteGroups(grouped: Tree)
      modifies db
      ensures db.poRef == SetGroups(old(db.poRef), grouped)
      ensures db.vendorLinks == old(db.vendorLinks)
    {
      var pending, done := grouped.Keys, {};
      while pending != {}
        invariant pending == grouped.Keys - done && done <= grouped.Keys
        invariant db.poRef == SetGroups(old(db.poRef), Restrict(grouped, done))
        invariant db.vendorLinks == old(db.vendorLinks)
        decreases pending
      {
        var g :| g in pending;
        RestrictStep(old(db.poRef), grouped, done, g);
        db.SetGroup(g, grouped[g]);
        pending, done := pending - {g}, done + {g};
      }
      assert Restrict(grouped, done) == grouped;
    }

    /**
     * `validateLink`: fetch the link; store it as the vendor link exactly when
     * the body does not show the expiry phrase.
     */
    method ValidateLink(link: string, fetch: string -> Page) returns (result: Validation)
      modifies db
      ensures db.poRef == old(db.poRef)
      ensures fetch(link).FetchError? ==>
        result == Thrown(fetch(link).message) && db.vendorLinks == old(db.vendorLinks)
      ensures fetch(link).Fetched? && !Expired(fetch(link).body) ==>
        result == Returned(MSG_LINK_STORED) && db.vendorLinks == Some(link)
      ensures fetch(link).Fetched? && Expired(fetch(link).body) ==>
        result == Returned(MSG_LINK_INVALID) && db.vendorLinks == old(db.vendorLinks)
    {
      var response := fetch(link);
      if response.FetchError? {
        return Thrown(response.message);
      }
      if !Contains(response.body, INVALID_MESSAGE) {
        db.SetVendorLink(link);
        return Returned(MSG_LINK_STORED);
      } else {
        return Returned(MSG_LINK_INVALID);
      }
    }

    /**
     * `POST /api/store-link`: the link becomes `currentStoredLink` before it is
     * validated, so it is kept even when validation rejects it or fails.
     */
    method StoreLink(link: string, fetch: string -> Page) returns (res: Response)
      modifies this, db
      ensures currentStoredLink == Some(link)
      ensures db.poRef == old(db.poRef)
      ensures fetch(link).FetchError? ==>
        res == Response(500, Error(FetchFailed(fetch(link).message))) &&
        db.vendorLinks == old(db.vendorLinks)
      ensures fetch(link).Fetched? && !Expired(fetch(link).body) ==>
        res == Response(200, Message(MSG_LINK_STORED)) && db.vendorLinks == Some(link)
      ensures fetch(link).Fetched? && Expired(fetch(link).body) ==>
        res == Response(400, Message(MSG_LINK_INVALID)) && db.vendorLinks == old(db.vendorLinks)
    {
      currentStoredLink := Some(link);
      var result := ValidateLink(link, fetch);
      match result {
        case Thrown(message) =>
          res := Response(500, Error(FetchFailed(message)));
        case Returned(text) =>
          if text == MSG_LINK_STORED {
            res := Response(200, Message(text));
          } else {
            res := Response(400, Message(text));
          }
      }
    }

    /**
     * `GET /api/fetch-link`: 404 when no vendor link is stored (or it is
     * empty), otherwise "valid"; expiry is not consulted.
     */
    method FetchLink() returns (res: Response)
      ensures Falsy(db.vendorLinks) ==> res == Response(404, LinkStatus("not_found"))
      ensures !Falsy(db.vendorLinks) ==> res == Response(200, LinkStatus("valid"))
    {
      var link := db.vendorLinks;
      if link.None? || link.value == "" {
        res := Response(404, LinkStatus("not_found"));
      } else {
        res := Response(200, LinkStatus("valid"));
      }
    }

    /**
     * `GET /api/extract-table`: a cached link overrides the query parameter;
     * with neither (or an empty one) the request fails with 'Link is
     * required'. Headers come from the first row, and every later row gives
     * a record, an empty one when it has no cells.
     */
    method ExtractTable(query: Option<string>, fetch: string -> Page) returns (res: Response)
      ensures var link := if currentStoredLink.Some? then currentStoredLink else query;
        && (Falsy(link) ==> res == Response(400, Error(LinkRequired)))
        && (!Falsy(link) && fetch(link.value).FetchError? ==>
              res == Response(500, Error(FetchFailed(fetch(link.value).message))))
        && (!Falsy(link) && fetch(link.value).Fetched? ==>
              res == Response(200, Records(InlineRecords(fetch(link.value).rows))))
    {
      var link: Option<string>;
      if currentStoredLink.Some? {
        link := currentStoredLink;
      } else {
        link := query;
      }
      if link.None? || link.value == "" {
        return Response(400, Error(LinkRequired));
      }
      var response := fetch(link.value);
      if response.FetchError? {
        return Response(500, Error(FetchFailed(response.message)));
      }
      var rows := response.rows;
      var headers: seq<string> := [];
      if rows != [] {
        headers := HeaderCells(rows[0]);
      }
      var later := Tail(rows);
      var tableData: seq<Record> := [];
      var index := 0;
      while index < |later|
        invariant index <= |later|
        invariant |tableData| == index
        invariant forall m :: 0 <= m < index ==> tableData[m] == RowRecord(headers, later[m])
      {
        var rowData := RowObject(headers, later[index]);
        tableData := tableData + [rowData];
        index := index + 1;
      }
      assert headers == Headers(rows) && later == Tail(rows);
      assert tableData == InlineRecords(rows);
      return Response(200, Records(tableData));
    }

    /**
     * `POST /api/updateDeliveryStatus`: the item key is derived from `poRef`
     * exactly as the insert derives it, and only that item's DeliveryStatus
     * is written, under the caller's `selectedPoRef`.
     */
    method UpdateDeliveryStatus(poRef: string, deliveryStatus: string, selectedPoRef: string)
      returns (res: Response)
      modifies db
      ensures db.poRef == WithStatus(old(db.poRef), selectedPoRef, ItemKey(poRef), deliveryStatus)
      ensures db.vendorLinks == old(db.vendorLinks)
      ensures res == Response(200, Message(MSG_STATUS_UPDATED))
    {
      var poref := ItemKey(poRef);
      db.SetDeliveryStatus(selectedPoRef, poref, deliveryStatus);
      return Response(200, Message(MSG_STATUS_UPDATED));
    }
  }
}
