/** The two loops of the pipeline: `parse_events_block`, which extracts the events of one
    event group, and `parse_events`, which walks the page's top-level blocks with a
    current-date cursor. */
module Pipeline {
  import opened Outcome
  import opened Calendar
  import opened DateParser
  import opened EventExtractor

  /** The `event` variable of `parse_events_block`: unbound until a child parses without
      raising, then the result of the last child that did. A child that raises leaves it as
      it was. */
  datatype Binding = Unbound | Bound(outcome: Option<Event>)

  /** The value of `event` once the loop has visited `children`. It stays unbound exactly
      while every child so far has raised, and an event it holds is a well-timed event of the
      group's date. */
  function Carry(children: seq<Child>, date: Option<Date>): (b: Binding)
    ensures b.Bound? && b.outcome.Some? ==> WellTimed(b.outcome.value) && date == Some(b.outcome.value.day)
  {
    if children == [] then Unbound
    else
      var last := |children| - 1;
      match ParseEvent(children[last], date)
      case Ok(outcome) => Bound(outcome)
      case Err(_) => Carry(children[..last], date)
  }

  /** `event` stays unbound exactly while every child so far has raised. */
  lemma {:induction false} CarryUnbound(children: seq<Child>, date: Option<Date>)
    ensures Carry(children, date).Unbound? <==> forall k :: 0 <= k < |children| ==> ParseEvent(children[k], date).Err?
  {
    if children != [] {
      var last := |children| - 1;
      CarryUnbound(children[..last], date);
      assert forall k :: 0 <= k < last ==> children[..last][k] == children[k];
    }
  }

  /** What `parse_events_block` returns for `children`: after each child, the value of
      `event` is appended unless it is None; reading it while unbound raises. */
  function GroupEvents(children: seq<Child>, date: Option<Date>): (r: Result<seq<Event>>)
    ensures r.Ok? ==> |r.value| <= |children|
    ensures r.Ok? ==> forall e :: e in r.value ==> WellTimed(e) && date == Some(e.day)
  {
    if children == [] then Ok([])
    else
      match GroupEvents(children[..|children| - 1], date)
      case Err(e) => Err(e)
      case Ok(events) =>
        match Carry(children, date)
        case Unbound => Err(UnboundEvent)
        case Bound(None) => Ok(events)
        case Bound(Some(e)) => Ok(events + [e])
  }

  /** `parse_events_block(block, date)`: one pass over the group's children, carrying the
      `event` variable from one iteration to the next. */
  method ParseEventsBlock(children: seq<Child>, date: Option<Date>) returns (r: Result<seq<Event>>)
    ensures r == GroupEvents(children, date)
  {
    var events: seq<Event> := [];
    var event := Unbound;
    for i := 0 to |children|
      invariant event == Carry(children[..i], date)
      invariant GroupEvents(children[..i], date) == Ok(events)
    {
      assert children[..i + 1][..i] == children[..i];
      var outcome := ParseEvent(children[i], date);
      if outcome.Ok? {
        event := Bound(outcome.value);
      }
      match event
      case Unbound =>
        assert children[..i + 1][0] == children[0];
        GroupFailsIffFirstChildFails(children, date);
        return Err(UnboundEvent);
      case Bound(None) =>
      case Bound(Some(e)) =>
        events := events + [e];
    }
    assert children[..|children|] == children;
    return Ok(events);
  }

  /** The group raises exactly when its first child raises: after a first child that does
      not raise, `event` is always bound. */
  lemma {:induction false} GroupFailsIffFirstChildFails(children: seq<Child>, date: Option<Date>)
    ensures GroupEvents(children, date).Err? <==> children != [] && ParseEvent(children[0], date).Err?
    ensures GroupEvents(children, date).Err? ==> GroupEvents(children, date).error == UnboundEvent
  {
    if children != [] {
      var init := children[..|children| - 1];
      GroupFailsIffFirstChildFails(init, date);
      CarryUnbound(children, date);
      if init != [] {
        assert init[0] == children[0];
      }
    }
  }

  /** The events of the children that are events, in order: what a group yields when no
      child raises. */
  function Titled(children: seq<Child>, date: Option<Date>): seq<Event>
  {
    if children == [] then []
    else
      var init := Titled(children[..|children| - 1], date);
      match ParseEvent(children[|children| - 1], date)
      case Ok(Some(e)) => init + [e]
      case _ => init
  }

  /** When no child raises, the group yields each titled child's event once, in document
      order, and skips the untitled ones. */
  lemma {:induction false} GroupOfWellFormedChildren(children: seq<Child>, date: Option<Date>)
    requires forall k :: 0 <= k < |children| ==> ParseEvent(children[k], date).Ok?
    ensures GroupEvents(children, date) == Ok(Titled(children, date))
  {
    if children != [] {
      var init := children[..|children| - 1];
      assert forall k :: 0 <= k < |init| ==> init[k] == children[k];
      GroupOfWellFormedChildren(init, date);
    }
  }

  /** A child that raises after a child that yielded an event appends that event a second
      time (the event of `children` + [good] is repeated by the failing `bad`). */
  lemma FailedChildRepeatsPrevious(children: seq<Child>, good: Child, bad: Child, date: Option<Date>)
    requires ParseEvent(good, date).Ok? && ParseEvent(good, date).value.Some?
    requires ParseEvent(bad, date).Err?
    ensures var e := ParseEvent(good, date).value.value;
            GroupEvents(children + [good] + [bad], date)
              == match GroupEvents(children, date)
                 case Ok(events) => Ok(events + [e, e])
                 case Err(x) => Err(x)
  {
    var e := ParseEvent(good, date).value.value;
    var withGood := children + [good];
    CarryStep(children, good, date);
    BoundStep(children, good, date, e);
    CarryStep(withGood, bad, date);
    BoundStep(withGood, bad, date, e);
    if GroupEvents(children, date).Ok? {
      var events := GroupEvents(children, date).value;
      assert events + [e] + [e] == events + [e, e];
    }
  }

  /** A child after which `event` holds `e` appends `e`. */
  lemma BoundStep(children: seq<Child>, child: Child, date: Option<Date>, e: Event)
    requires Carry(children + [child], date) == Bound(Some(e))
    ensures GroupEvents(children + [child], date) == Appended(GroupEvents(children, date), e)
  {
    assert (children + [child])[..|children|] == children;
  }

  /** `events` with `e` appended, or the error that ended the group. */
  function Appended(events: Result<seq<Event>>, e: Event): (r: Result<seq<Event>>)
    ensures r.Err? <==> events.Err?
  {
    match events
    case Err(x) => Err(x)
    case Ok(es) => Ok(es + [e])
  }

  /** One more child: it rebinds `event` unless it raises. */
  lemma CarryStep(children: seq<Child>, child: Child, date: Option<Date>)
    ensures Carry(children + [child], date)
              == match ParseEvent(child, date)
                 case Ok(outcome) => Bound(outcome)
                 case Err(_) => Carry(children, date)
  {
    assert (children + [child])[..|children|] == children;
  }

  /** A group of one child that is an event yields that event. */
  lemma SingleChildGroup(child: Child, e: Event, date: Option<Date>)
    requires ParseEvent(child, date) == Ok(Some(e))
    ensures GroupEvents([child], date) == Ok([e])
  {
    var group := [child];
    assert group[..0] == [];
    assert GroupEvents(group[..0], date) == Ok([]);
    assert Carry(group, date) == Bound(Some(e));
    assert GroupEvents(group, date) == Ok([] + [e]);
    assert [] + [e] == [e];
  }

  /** A child that raises after an untitled child adds nothing. */
  lemma FailedChildAfterUntitled(children: seq<Child>, untitled: Child, bad: Child, date: Option<Date>)
    requires untitled.title.None?
    requires ParseEvent(bad, date).Err?
    ensures GroupEvents(children + [untitled, bad], date) == GroupEvents(children, date)
  {
    var all := children + [untitled, bad];
    assert all[..|all| - 1] == children + [untitled];
    assert (children + [untitled])[..|children|] == children;
  }

  /** Every event a group yields is the event of one of its children. */
  lemma {:induction false} GroupEventsComeFromChildren(children: seq<Child>, date: Option<Date>)
    requires GroupEvents(children, date).Ok?
    ensures forall e :: e in GroupEvents(children, date).value ==>
              exists k :: 0 <= k < |children| && ParseEvent(children[k], date) == Ok(Some(e))
  {
    if children != [] {
      var last := |children| - 1;
      var init := children[..last];
      GroupEventsComeFromChildren(init, date);
      var before := GroupEvents(init, date).value;
      var after := GroupEvents(children, date).value;
      forall e | e in after
        ensures exists k :: 0 <= k < |children| && ParseEvent(children[k], date) == Ok(Some(e))
      {
        if e in before {
          var k :| 0 <= k < |init| && ParseEvent(init[k], date) == Ok(Some(e));
          assert init[k] == children[k];
        } else {
          assert Carry(children, date) == Bound(Some(e));
          CarriedComesFromChild(children, date);
        }
      }
    }
  }

  /** An event held by `event` is the event of one of the children visited. */
  lemma {:induction false} CarriedComesFromChild(children: seq<Child>, date: Option<Date>)
    requires Carry(children, date).Bound? && Carry(children, date).outcome.Some?
    ensures exists k :: 0 <= k < |children| && ParseEvent(children[k], date) == Ok(Carry(children, date).outcome)
  {
    var last := |children| - 1;
    if ParseEvent(children[last], date).Err? {
      var init := children[..last];
      assert Carry(children, date) == Carry(init, date);
      CarriedComesFromChild(init, date);
      var k :| 0 <= k < |init| && ParseEvent(init[k], date) == Ok(Carry(init, date).outcome);
      assert init[k] == children[k];
    } else {
      assert ParseEvent(children[last], date) == Ok(Carry(children, date).outcome);
    }
  }

  /** Without a date every titled child raises (the time cannot be combined with an absent
      date), so a group before the first date block aborts when its first child has a title
      and yields nothing otherwise. */
  lemma GroupWithoutDate(children: seq<Child>)
    ensures GroupEvents(children, None)
              == if children != [] && children[0].title.Some? then Err(UnboundEvent) else Ok([])
  {
    GroupFailsIffFirstChildFails(children, None);
  }

  /** A top-level block of the page: a date marker (the text of its first `h2`, None when it
      has none) or an event group (its child containers). `is_date_div` is the choice of
      constructor. */
  datatype Block = DateBlock(heading: Option<string>) | GroupBlock(children: seq<Child>)

  /** The state of `parse_events` between blocks: `current_date` and the events so far. */
  datatype Cursor = Cursor(date: Option<Date>, events: seq<Event>)

  /** One iteration of `parse_events`: a date block moves the cursor and emits nothing; an
      event group appends its events under the cursor's date. Either may raise. */
  function Visit(c: Cursor, block: Block, year: int): Result<Cursor>
  {
    match block
    case DateBlock(heading) =>
      (match ParseDateDiv(heading, year)
       case Err(e) => Err(e)
       case Ok(d) => Ok(Cursor(Some(d), c.events)))
    case GroupBlock(children) =>
      (match GroupEvents(children, c.date)
       case Err(e) => Err(e)
       case Ok(events) => Ok(Cursor(c.date, c.events + events)))
  }

  /** The state of `parse_events` once it has visited `page`, or the error that ended it. */
  function Run(page: seq<Block>, year: int): (r: Result<Cursor>)
    ensures r.Ok? ==> forall e :: e in r.value.events ==> WellTimed(e)
  {
    if page == [] then Ok(Cursor(None, []))
    else
      match Run(page[..|page| - 1], year)
      case Err(e) => Err(e)
      case Ok(c) => Visit(c, page[|page| - 1], year)
  }

  /** What `parse_events(page)` returns, run in `year`. */
  function PageEvents(page: seq<Block>, year: int): Result<seq<Event>>
  {
    match Run(page, year)
    case Err(e) => Err(e)
    case Ok(c) => Ok(c.events)
  }

  /** A visit returns exactly when its block runs without raising under the cursor's date;
      then a date block replaces the date and keeps the events, and an event group keeps the
      date and appends its events. */
  lemma VisitOutcome(c: Cursor, block: Block, year: int)
    ensures Visit(c, block, year).Ok? <==> BlockOk(block, c.date, year)
    ensures Visit(c, block, year).Ok? ==>
              Visit(c, block, year).value.events == c.events + Emitted(block, c.date)
    ensures Visit(c, block, year).Ok? && block.DateBlock? ==>
              Visit(c, block, year).value.date == Some(ParseDateDiv(block.heading, year).value)
    ensures block.GroupBlock? ==> Visit(c, block, year).Ok? ==> Visit(c, block, year).value.date == c.date
  {
    if block.DateBlock? {
      assert c.events + [] == c.events;
    }
  }

  /** `parse_events` returns exactly when every block runs without raising, and then its
      result is every block's contribution in document order. */
  lemma PageEventsOutcome(page: seq<Block>, year: int)
    ensures PageEvents(page, year).Ok? <==> forall k :: 0 <= k < |page| ==> BlockSucceeds(page, k, year)
    ensures PageEvents(page, year).Ok? ==> PageEvents(page, year).value == EmittedUpTo(page, |page|, year)
  {
    RunSucceedsIffEveryBlockDoes(page, year);
    if Run(page, year).Ok? {
      PageEventsInOrder(page, year);
    }
  }

  /** `parse_events(page)`, run in `year`: one pass over the blocks with the `current_date`
      cursor. */
  method ParseEvents(page: seq<Block>, year: int) returns (r: Result<seq<Event>>)
    ensures r == PageEvents(page, year)
  {
    var events: seq<Event> := [];
    var currentDate: Option<Date> := None;
    for i := 0 to |page|
      invariant Run(page[..i], year) == Ok(Cursor(currentDate, events))
    {
      RunStep(page, i, year);
      match page[i]
      case DateBlock(heading) =>
        var d := ParseDateDiv(heading, year);
        if d.Err? {
          RunStopsAtError(page, i + 1, year);
          return Err(d.error);
        }
        currentDate := Some(d.value);
      case GroupBlock(children) =>
        var group := ParseEventsBlock(children, currentDate);
        if group.Err? {
          RunStopsAtError(page, i + 1, year);
          return Err(group.error);
        }
        events := events + group.value;
    }
    assert page[..|page|] == page;
    return Ok(events);
  }

  /** The run over one more block is the previous run followed by a visit of that block. */
  lemma RunStep(page: seq<Block>, i: nat, year: int)
    requires i < |page|
    ensures Run(page[..i], year).Err? ==> Run(page[..i + 1], year) == Run(page[..i], year)
    ensures Run(page[..i], year).Ok? ==> Run(page[..i + 1], year) == Visit(Run(page[..i], year).value, page[i], year)
  {
    assert page[..i + 1][..i] == page[..i];
  }

  /** A date heading followed by one event group: the group's events, on the heading's
      date. */
  lemma HeadedGroup(heading: Option<string>, children: seq<Child>, year: int, d: Date, events: seq<Event>)
    requires ParseDateDiv(heading, year) == Ok(d)
    requires GroupEvents(children, Some(d)) == Ok(events)
    ensures PageEvents([DateBlock(heading), GroupBlock(children)], year) == Ok(events)
  {
    var page := [DateBlock(heading), GroupBlock(children)];
    var c := Cursor(Some(d), []);
    assert Run(page[..1], year) == Ok(c) by {
      assert page[..1][..0] == [];
    }
    assert Visit(c, page[1], year) == Ok(Cursor(Some(d), events)) by {
      assert [] + events == events;
    }
  }

  /** Once a prefix of the page raises, the run ends with that error. */
  lemma {:induction false} RunStopsAtError(page: seq<Block>, n: nat, year: int)
    requires n <= |page| && Run(page[..n], year).Err?
    ensures Run(page, year) == Run(page[..n], year)
  {
    if n < |page| {
      var init := page[..|page| - 1];
      assert init[..n] == page[..n];
      RunStopsAtError(init, n, year);
    } else {
      assert page[..n] == page;
    }
  }

  /** The date of the last date block of `page`, None when there is none (or when its
      heading does not read as a date). */
  function LatestDate(page: seq<Block>, year: int): Option<Date>
  {
    if page == [] then None
    else
      match page[|page| - 1]
      case DateBlock(heading) =>
        (match ParseDateDiv(heading, year) case Ok(d) => Some(d) case Err(_) => None)
      case GroupBlock(_) => LatestDate(page[..|page| - 1], year)
  }

  /** What block `k` contributes: nothing for a date block, and for an event group its
      events under the date of the latest date block before it. */
  function EmittedAt(page: seq<Block>, k: nat, year: int): seq<Event>
    requires k < |page|
  {
    Emitted(page[k], LatestDate(page[..k], year))
  }

  /** What `block` contributes when the current date is `date`. */
  function Emitted(block: Block, date: Option<Date>): seq<Event> {
    match block
    case DateBlock(_) => []
    case GroupBlock(children) =>
      match GroupEvents(children, date)
      case Ok(events) => events
      case Err(_) => []
  }

  /** The contributions of the first `n` blocks, in document order. */
  function EmittedUpTo(page: seq<Block>, n: nat, year: int): seq<Event>
    requires n <= |page|
  {
    if n == 0 then [] else EmittedUpTo(page, n - 1, year) + EmittedAt(page, n - 1, year)
  }

  /** Whether block `k` runs without raising, given the date of the latest date block
      before it. */
  predicate BlockSucceeds(page: seq<Block>, k: nat, year: int)
    requires k < |page|
  {
    BlockOk(page[k], LatestDate(page[..k], year), year)
  }

  /** Whether `block` runs without raising when the current date is `date`. */
  predicate BlockOk(block: Block, date: Option<Date>, year: int) {
    match block
    case DateBlock(heading) => ParseDateDiv(heading, year).Ok?
    case GroupBlock(children) => GroupEvents(children, date).Ok?
  }

  lemma {:induction false} EmittedUpToPrefix(page: seq<Block>, m: nat, n: nat, year: int)
    requires n <= m <= |page|
    ensures EmittedUpTo(page[..m], n, year) == EmittedUpTo(page, n, year)
  {
    if n > 0 {
      EmittedUpToPrefix(page, m, n - 1, year);
      assert page[..m][n - 1] == page[n - 1] && page[..m][..n - 1] == page[..n - 1];
    }
  }

  /** The cursor holds the date of the latest date block, and the events are every block's
      contribution concatenated in document order: each event group gets the date of the
      most recent date block before it, or None before the first. */
  lemma {:induction false} PageEventsInOrder(page: seq<Block>, year: int)
    requires Run(page, year).Ok?
    ensures Run(page, year).value == Cursor(LatestDate(page, year), EmittedUpTo(page, |page|, year))
  {
    if page != [] {
      var init := page[..|page| - 1];
      PageEventsInOrder(init, year);
      EmittedUpToPrefix(page, |init|, |init|, year);
    }
  }

  /** `parse_events` returns (rather than raises) exactly when every date heading reads as a
      date and no event group raises under the date in force for it; so one bad heading, or
      one group whose first child raises, aborts the whole run. */
  lemma {:induction false} RunSucceedsIffEveryBlockDoes(page: seq<Block>, year: int)
    ensures Run(page, year).Ok? <==> forall k :: 0 <= k < |page| ==> BlockSucceeds(page, k, year)
  {
    if page != [] {
      var last := |page| - 1;
      RunSucceedsIffEveryBlockDoes(page[..last], year);
      EveryBlockOfPrefix(page, page[..last], year);
      if Run(page[..last], year).Ok? {
        LastBlockSucceeds(page, year);
      }
    }
  }

  /** Every block of a page succeeds exactly when every block before the last does, as a
      page of its own, and the last one does too. */
  lemma EveryBlockOfPrefix(page: seq<Block>, init: seq<Block>, year: int)
    requires page != [] && init == page[..|page| - 1]
    ensures (forall k :: 0 <= k < |page| ==> BlockSucceeds(page, k, year))
            <==> (forall k :: 0 <= k < |init| ==> BlockSucceeds(init, k, year))
                 && BlockSucceeds(page, |init|, year)
  {
    if forall k :: 0 <= k < |page| ==> BlockSucceeds(page, k, year) {
      PrefixBlocksSucceed(page, init, year);
    }
    if (forall k :: 0 <= k < |init| ==> BlockSucceeds(init, k, year)) && BlockSucceeds(page, |init|, year) {
      ExtendedBlocksSucceed(page, init, year);
    }
  }

  lemma PrefixBlocksSucceed(page: seq<Block>, init: seq<Block>, year: int)
    requires |init| <= |page| && init == page[..|init|]
    requires forall k :: 0 <= k < |page| ==> BlockSucceeds(page, k, year)
    ensures forall k :: 0 <= k < |init| ==> BlockSucceeds(init, k, year)
  {
    forall k | 0 <= k < |init|
      ensures BlockSucceeds(init, k, year)
    {
      BlockOfPrefix(page, init, k, year);
    }
  }

  lemma ExtendedBlocksSucceed(page: seq<Block>, init: seq<Block>, year: int)
    requires page != [] && init == page[..|page| - 1]
    requires forall k :: 0 <= k < |init| ==> BlockSucceeds(init, k, year)
    requires BlockSucceeds(page, |init|, year)
    ensures forall k :: 0 <= k < |page| ==> BlockSucceeds(page, k, year)
  {
    forall k | 0 <= k < |page|
      ensures BlockSucceeds(page, k, year)
    {
      if k < |init| {
        BlockOfPrefix(page, init, k, year);
      } else {
        assert k == |init|;
      }
    }
  }

  /** A block succeeds on a prefix of the page exactly when it succeeds on the page. */
  lemma BlockOfPrefix(page: seq<Block>, init: seq<Block>, k: nat, year: int)
    requires |init| <= |page| && init == page[..|init|] && k < |init|
    ensures BlockSucceeds(init, k, year) == BlockSucceeds(page, k, year)
  {
    assert init[k] == page[k] && init[..k] == page[..k];
  }

  /** Once the blocks before the last have run, the run succeeds exactly when the last
      block does. */
  lemma LastBlockSucceeds(page: seq<Block>, year: int)
    requires page != [] && Run(page[..|page| - 1], year).Ok?
    ensures Run(page, year).Ok? <==> BlockSucceeds(page, |page| - 1, year)
  {
    var last := |page| - 1;
    var init := page[..last];
    PageEventsInOrder(init, year);
    var c := Run(init, year).value;
    assert c.date == LatestDate(page[..last], year);
    assert Run(page, year) == Visit(c, page[last], year);
  }

  /** Running on a prefix of the page gives a prefix of the events: the output only grows,
      in document order. */
  lemma {:induction false} RunPrefix(page: seq<Block>, n: nat, year: int)
    requires n <= |page| && Run(page, year).Ok?
    ensures Run(page[..n], year).Ok?
    ensures Run(page[..n], year).value.events <= Run(page, year).value.events
  {
    if n < |page| {
      var init := page[..|page| - 1];
      assert init[..n] == page[..n];
      RunPrefix(init, n, year);
    } else {
      assert page[..n] == page;
    }
  }
}
