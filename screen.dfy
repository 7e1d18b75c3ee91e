/**
  The state of the getPhotos performance screen and the transitions that change it.

  The asynchronous `startFetchingPhotos` is split at its `await`: `StartFetchingPhotos` runs
  up to the call and hands back the request it issued, and the call later settles either by
  `Resolve` (the page arrives) or by `Reject` (the promise fails, so nothing after the
  `await` runs). The page and the clock readings are parameters.
*/
module PerformanceScreen {
  import opened Wrappers
  import opened Include
  import PageSize

  /** The argument of the photo-listing call: the page size and the selected fields. */
  datatype GetPhotosParams = GetPhotosParams(first: nat, fields: seq<IncludeTag>)

  /** A call that has been issued and has not settled yet, with the clock reading taken just before it. */
  datatype PendingFetch = PendingFetch(params: GetPhotosParams, startTime: int)

  /** The text the page-size field starts with. */
  const InitialFirstStr: string := "1000"

  /** The screen component; `Page` is the photo-listing result, which the screen only displays. */
  class GetPhotosPerformanceExample<Page> {
    var fetchingPhotos: bool
    var timeTakenMillis: Option<int>
    var output: Option<Page>
    /** The `include` state field: the fields to request, as the switches left them. */
    var included: seq<IncludeTag>
    var firstStr: string
    /** The calls issued and not settled yet. */
    ghost var pending: multiset<PendingFetch>

    /**
      `output` and `timeTakenMillis` are set together or not at all. The constructor and
      `Resolve` establish it; every other method keeps it, as none of them may modify either field.
    */
    ghost predicate Valid()
      reads this`output, this`timeTakenMillis
    {
      output.Some? <==> timeTakenMillis.Some?
    }

    /** At most one call is outstanding, and while one is, `fetchingPhotos` is set. */
    ghost predicate SingleFlight()
      reads this`pending, this`fetchingPhotos
    {
      |pending| <= 1 && (|pending| == 1 ==> fetchingPhotos)
    }

    /** `first()`: depends on the text field alone. */
    function First(): Option<nat>
      reads this`firstStr
    {
      PageSize.First(firstStr)
    }

    /** The run button is disabled while a fetch is marked as running. */
    predicate ButtonEnabled()
      reads this`fetchingPhotos
    {
      !fetchingPhotos
    }

    /** The initial state: nothing fetched, nothing selected, and the text field reading a count of 1000. */
    constructor ()
      ensures !fetchingPhotos && timeTakenMillis == None && output == None
      ensures included == [] && firstStr == InitialFirstStr
      ensures pending == multiset{} && Valid() && SingleFlight()
      ensures First() == Some(1000)
    {
      fetchingPhotos := false;
      timeTakenMillis := None;
      output := None;
      included := [];
      firstStr := InitialFirstStr;
      pending := multiset{};
      PageSize.FirstOfDefault();
    }

    /**
      `startFetchingPhotos` up to its `await`. Without a valid count nothing changes and no
      call is issued; otherwise the call carries the count and the current selection, and
      the screen is marked as fetching. The flag is not consulted here.
    */
    method StartFetchingPhotos(now: int) returns (call: Option<PendingFetch>)
      modifies this`fetchingPhotos, this`pending
      ensures call.None? <==> First().None?
      ensures call.None? ==> fetchingPhotos == old(fetchingPhotos) && pending == old(pending)
      ensures call.Some? ==> call.value == PendingFetch(GetPhotosParams(First().value, included), now)
      ensures call.Some? ==> fetchingPhotos && pending == old(pending) + multiset{call.value}
      ensures old(Valid()) ==> Valid()
    {
      var fields := included;
      var first := First();
      if first.None? {
        return None;
      }
      fetchingPhotos := true;
      var params := GetPhotosParams(first.value, fields);
      call := Some(PendingFetch(params, now));
      pending := pending + multiset{call.value};
    }

    /**
      The issued call `call` resolved with `page` at clock reading `endTime`: one combined
      update of three fields, the elapsed time measured from that call's own start reading.
    */
    method Resolve(call: PendingFetch, page: Page, endTime: int)
      requires call in pending
      modifies this`output, this`timeTakenMillis, this`fetchingPhotos, this`pending
      ensures output == Some(page) && timeTakenMillis == Some(endTime - call.startTime)
      ensures !fetchingPhotos && pending == old(pending) - multiset{call}
      ensures Valid()
      ensures old(SingleFlight()) ==> SingleFlight()
    {
      output := Some(page);
      timeTakenMillis := Some(endTime - call.startTime);
      fetchingPhotos := false;
      pending := pending - multiset{call};
    }

    /** The issued call `call` failed: the update after the `await` never runs, so the screen stays marked as fetching. */
    method Reject(call: PendingFetch)
      requires call in pending
      modifies this`pending
      ensures pending == old(pending) - multiset{call}
      ensures fetchingPhotos == old(fetchingPhotos) && output == old(output) && timeTakenMillis == old(timeTakenMillis)
      ensures old(Valid()) ==> Valid()
      ensures old(SingleFlight()) ==> SingleFlight()
    {
      pending := pending - multiset{call};
    }

    /**
      A press of the run button. A disabled button ignores the press; an enabled one runs
      `startFetchingPhotos`. This guard is what keeps at most one call outstanding.
    */
    method Press(now: int) returns (call: Option<PendingFetch>)
      requires SingleFlight()
      modifies this`fetchingPhotos, this`pending
      ensures SingleFlight() && (old(Valid()) ==> Valid())
      ensures !old(ButtonEnabled()) ==> call.None? && fetchingPhotos == old(fetchingPhotos) && pending == old(pending)
      ensures old(ButtonEnabled()) ==> (call.None? <==> First().None?)
      ensures old(ButtonEnabled()) && call.None? ==> !fetchingPhotos && pending == old(pending)
      ensures old(ButtonEnabled()) && call.Some? ==>
                call.value == PendingFetch(GetPhotosParams(First().value, included), now) && fetchingPhotos
                && pending == multiset{call.value}
    {
      if !ButtonEnabled() {
        return None;
      }
      call := StartFetchingPhotos(now);
    }

    /** `handleIncludeChange`: the switch for `tag` reported `changedTo`. */
    method HandleIncludeChange(tag: IncludeTag, changedTo: bool)
      modifies this`included
      ensures included == Toggle(old(included), tag, changedTo)
    {
      included := Toggle(included, tag, changedTo);
    }

    /** The page-size text field was edited. */
    method ChangeFirstStr(text: string)
      modifies this`firstStr
      ensures firstStr == text && First() == PageSize.First(text)
    {
      firstStr := text;
    }
  }

  /**
    From the initial screen, one press and a resolved call at `endTime` show the page and
    the elapsed time `endTime - startTime`, and enable the button again.
  */
  method FetchOnce<Page>(page: Page, startTime: int, endTime: int)
    returns (request: GetPhotosParams, shown: Option<Page>, elapsed: Option<int>, enabled: bool)
    ensures request == GetPhotosParams(1000, [])
    ensures shown == Some(page) && elapsed == Some(endTime - startTime) && enabled
  {
    var screen := new GetPhotosPerformanceExample<Page>();
    var call := screen.Press(startTime);
    request := call.value.params;
    screen.Resolve(call.value, page, endTime);
    shown, elapsed, enabled := screen.output, screen.timeTakenMillis, screen.ButtonEnabled();
  }

  /**
    From the initial screen, a press whose call is rejected leaves the button disabled with
    no call outstanding, so a second press issues nothing, and no output was ever shown.
  */
  method RejectedFetchDisablesButton<Page>(startTime: int, retryTime: int)
    returns (enabled: bool, retried: Option<PendingFetch>, shown: Option<Page>)
    ensures !enabled && retried == None && shown == None
  {
    var screen := new GetPhotosPerformanceExample<Page>();
    var call := screen.Press(startTime);
    screen.Reject(call.value);
    enabled := screen.ButtonEnabled();
    retried := screen.Press(retryTime);
    shown := screen.output;
  }
}
