/**
 * The site list controller of the page: the roster held in `allSites`, the two
 * text boxes, the table and the counters, and the handlers that change them.
 * Dialog answers and server responses are parameters of the handlers; each
 * handler runs to completion before the next one starts.
 */
module SiteList {
  import opened Prelude
  import opened Text
  import opened Roster

  /** What the table body shows: one row per record ("Aucun site" when empty), or the load-error row. */
  datatype View = Rows(rows: seq<Site>) | LoadError

  /** The outcome of `GET /sites`: the decoded list, or a failed request or body. */
  datatype FetchResult = Fetched(sites: seq<Site>) | FetchFailed

  /**
   * The outcome of a mutating request: the request or its body threw an error
   * carrying a message, or a response came back with its `ok` flag and the
   * `message` field of its JSON body, if any.
   */
  datatype Reply = Thrown(error: string) | Response(ok: bool, message: Option<string>)

  /** The acknowledgement dialog a handler ends with. */
  datatype Notice = NoNotice | Succeeded | Failed(text: string)

  const DeleteFailure := "Impossible de supprimer."
  const RenameFailure := "Impossible de renommer."
  const NetworkFailure := "Erreur r\U{00E9}seau"
  const CreateFailure := "Erreur"

  predicate IsOk(reply: Reply) {
    reply.Response? && reply.ok
  }

  /** The name the create form sends: the trimmed input, or nothing when it trims to empty. */
  function CreateName(typed: string): (r: Option<string>)
    ensures r.None? <==> forall i :: 0 <= i < |typed| ==> IsSpace(typed[i])
    ensures r.Some? ==> r.value != [] && r.value == Trim(typed)
  {
    TrimEmptyIff(typed);
    if Trim(typed) == [] then None else Some(Trim(typed))
  }

  /** The rename dialog's validator refuses a value that trims to empty. */
  predicate RenameAccepted(v: string): (ok: bool)
    ensures ok <==> !forall i :: 0 <= i < |v| ==> IsSpace(v[i])
  {
    TrimEmptyIff(v);
    Trim(v) != []
  }

  /** The rename handler sends a request: an answer was given, it is not empty, and it trims to something new. */
  /**
   * No request for a cancelled dialog or an empty answer; for an answer the
   * validator accepted, a request goes out exactly when the trimmed answer
   * differs from the old name.
   */
  predicate RenameIssued(answer: Option<string>, oldName: string): (issued: bool)
    ensures answer.None? || answer.value == [] ==> !issued
    ensures answer.Some? && RenameAccepted(answer.value) ==> (issued <==> Trim(answer.value) != oldName)
  {
    answer.Some? && answer.value != [] && Trim(answer.value) != oldName
  }

  /** The rename error dialog's text: the message the failure carries, or the fallback when it carries none. */
  function RenameErrorText(reply: Reply): (r: string)
    ensures r != []
    ensures reply.Thrown? && reply.error != [] ==> r == reply.error
    ensures reply.Response? && reply.message.Some? && reply.message.value != [] ==> r == reply.message.value
    ensures r != RenameFailure ==>
      (reply.Thrown? && r == reply.error) || (reply.Response? && reply.message == Some(r))
  {
    match reply
    case Thrown(e) => if e != [] then e else RenameFailure
    case Response(_, m) => if m.Some? && m.value != [] then m.value else RenameFailure
  }

  /** The text the create form shows once its request has finished. */
  function CreateMessage(reply: Reply): (r: string)
    ensures !IsOk(reply) ==> r != []
    ensures IsOk(reply) && reply.message.Some? ==> r == reply.message.value
    ensures IsOk(reply) && reply.message.None? ==> r == []
    ensures reply.Thrown? ==> r == NetworkFailure
    ensures reply.Response? && !reply.ok && reply.message.Some? && reply.message.value != [] ==>
      r == reply.message.value
    ensures reply.Response? && !reply.ok && (reply.message.None? || reply.message.value == []) ==>
      r == CreateFailure
  {
    match reply
    case Thrown(_) => NetworkFailure
    case Response(ok, m) =>
      if ok then (if m.Some? then m.value else [])
      else if m.Some? && m.value != [] then m.value else CreateFailure
  }

  /** The filter box starts empty, and the empty box selects the whole roster. */
  lemma BlankQueryOfEmpty()
    ensures QueryOf([]) == []
  {
    assert Trim([]) == [];
  }

  class Controller {
    /** `allSites`. */
    var roster: seq<Site>
    /** The value of the filter box. */
    var query: string
    /** The value of the create form's name box. */
    var nameInput: string
    var view: View
    var stats: Stats
    /** The create form's message line. */
    var formMessage: string

    /** The table shows the roster as the filter box selects it, and the counters describe the table. */
    ghost predicate Valid()
      reads this
    {
      view.Rows? ==> view.rows == Filter(roster, query) && stats == StatsOf(view.rows)
    }

    /**
     * Page load: the roster starts empty, both boxes are taken to be empty (the
     * page's HTML, which holds their first values, is not modelled), then the
     * first `fetchSites()` runs.
     */
    constructor (initial: FetchResult)
      ensures Valid()
      ensures query == [] && nameInput == [] && formMessage == []
      ensures initial.Fetched? ==>
        roster == initial.sites && view == Rows(initial.sites) && stats == StatsOf(initial.sites)
      ensures initial.FetchFailed? ==> roster == [] && view == LoadError && stats == StatsOf([])
    {
      roster, query, nameInput, formMessage := [], [], [], [];
      view, stats := Rows([]), StatsOf([]);
      new;
      BlankQueryOfEmpty();
      FetchSites(initial);
    }

    /** `fetchSites()`: on success the roster is replaced and shown whole; on failure only the error row. */
    method FetchSites(result: FetchResult)
      modifies this
      ensures query == old(query) && nameInput == old(nameInput) && formMessage == old(formMessage)
      ensures result.Fetched? ==>
        roster == result.sites && view == Rows(result.sites) && stats == StatsOf(result.sites)
      ensures result.FetchFailed? ==> roster == old(roster) && view == LoadError && stats == old(stats)
      ensures QueryOf(query) == [] ==> Valid()
    {
      match result
      case Fetched(sites) =>
        roster := sites;
        view := Rows(sites);
        stats := StatsOf(sites);
      case FetchFailed =>
        view := LoadError;
    }

    /** The body of the filter box's `input` handler, also run after a delete or a rename. */
    method ApplyFilter()
      modifies this
      ensures roster == old(roster) && query == old(query)
      ensures nameInput == old(nameInput) && formMessage == old(formMessage)
      ensures view == Rows(Filter(roster, query)) && stats == StatsOf(Filter(roster, query))
      ensures Valid()
    {
      var list := Filter(roster, query);
      view := Rows(list);
      stats := StatsOf(list);
    }

    /** The user types `typed` into the filter box: the table and counters follow, the roster is only read. */
    method OnFilterInput(typed: string)
      modifies this
      ensures query == typed
      ensures roster == old(roster) && nameInput == old(nameInput) && formMessage == old(formMessage)
      ensures view == Rows(Filter(roster, typed)) && stats == StatsOf(Filter(roster, typed))
      ensures Valid()
    {
      query := typed;
      ApplyFilter();
    }

    /** The user types `typed` into the create form's name box; no handler runs. */
    method OnNameInput(typed: string)
      requires Valid()
      modifies this
      ensures Valid()
      ensures nameInput == typed
      ensures roster == old(roster) && query == old(query) && view == old(view)
      ensures stats == old(stats) && formMessage == old(formMessage)
    {
      nameInput := typed;
    }

    /**
     * `onClickDelete` for the row of `safe`: without confirmation nothing
     * happens; the roster loses the records of `safe` only when the request
     * succeeds, and is left alone otherwise.
     */
    method OnClickDelete(safe: string, confirmed: bool, reply: Reply) returns (notice: Notice)
      requires Valid()
      modifies this
      ensures Valid()
      ensures query == old(query) && nameInput == old(nameInput) && formMessage == old(formMessage)
      ensures confirmed && IsOk(reply) ==>
        notice == Succeeded && roster == RemoveBySafe(old(roster), safe) &&
        view == Rows(Filter(roster, query)) && stats == StatsOf(Filter(roster, query))
      ensures !(confirmed && IsOk(reply)) ==>
        roster == old(roster) && view == old(view) && stats == old(stats)
      ensures !confirmed ==> notice == NoNotice
      ensures confirmed && !IsOk(reply) ==> notice == Failed(DeleteFailure)
    {
      if !confirmed {
        return NoNotice;
      }
      if !IsOk(reply) {
        return Failed(DeleteFailure);
      }
      roster := RemoveBySafe(roster, safe);
      ApplyFilter();
      notice := Succeeded;
    }

    /**
     * `onClickEdit` for the row of `oldSafe` showing `oldName`, with the
     * dialog's `answer`: no request for a missing, empty or unchanged name;
     * the records of `oldSafe` are renamed only when the request succeeds.
     */
    method OnClickEdit(oldSafe: string, oldName: string, answer: Option<string>, reply: Reply)
      returns (notice: Notice)
      requires Valid()
      modifies this
      ensures Valid()
      ensures query == old(query) && nameInput == old(nameInput) && formMessage == old(formMessage)
      ensures RenameIssued(answer, oldName) && IsOk(reply) ==>
        notice == Succeeded && roster == RenameAll(old(roster), oldSafe, answer.value) &&
        view == Rows(Filter(roster, query)) && stats == StatsOf(Filter(roster, query))
      ensures !(RenameIssued(answer, oldName) && IsOk(reply)) ==>
        roster == old(roster) && view == old(view) && stats == old(stats)
      ensures !RenameIssued(answer, oldName) ==> notice == NoNotice
      ensures RenameIssued(answer, oldName) && !IsOk(reply) ==> notice == Failed(RenameErrorText(reply))
    {
      if !RenameIssued(answer, oldName) {
        return NoNotice;
      }
      if !IsOk(reply) {
        return Failed(RenameErrorText(reply));
      }
      roster := RenameAll(roster, oldSafe, answer.value);
      ApplyFilter();
      notice := Succeeded;
    }

    /**
     * The create form's `submit` handler: nothing for a blank name; otherwise
     * the message line reports the reply, and a successful creation clears
     * both boxes and refetches the roster (`refetch` is that fetch's outcome).
     */
    method OnSubmitCreate(reply: Reply, refetch: FetchResult)
      requires Valid()
      modifies this
      ensures Valid()
      ensures CreateName(old(nameInput)).None? ==>
        roster == old(roster) && query == old(query) && nameInput == old(nameInput) &&
        view == old(view) && stats == old(stats) && formMessage == old(formMessage)
      ensures CreateName(old(nameInput)).Some? ==> formMessage == CreateMessage(reply)
      ensures CreateName(old(nameInput)).Some? && IsOk(reply) ==>
        nameInput == [] && query == [] &&
        (refetch.Fetched? ==>
          roster == refetch.sites && view == Rows(refetch.sites) && stats == StatsOf(refetch.sites)) &&
        (refetch.FetchFailed? ==> roster == old(roster) && view == LoadError && stats == old(stats))
      ensures CreateName(old(nameInput)).Some? && !IsOk(reply) ==>
        roster == old(roster) && query == old(query) && nameInput == old(nameInput) &&
        view == old(view) && stats == old(stats)
    {
      var name := CreateName(nameInput);
      if name.None? {
        return;
      }
      formMessage := CreateMessage(reply);
      if IsOk(reply) {
        nameInput := [];
        query := [];
        FetchSites(refetch);
      }
    }
  }
}
