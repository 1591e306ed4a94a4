/** The gateway's reading of a booking listing request: the optional query
    parameters with their defaults, the bounds on `from` and `size`, and
    the case-insensitive parse of the state name. */
module BookingGateway {
  import opened Common
  import opened Model
  import opened Text
  import opened Seqs
  import opened BookingRepository
  import BookingService

  /** The enum constant's name. */
  function StateName(s: BookingState): string {
    match s
    case ALL => "ALL"
    case CURRENT => "CURRENT"
    case PAST => "PAST"
    case FUTURE => "FUTURE"
    case WAITING => "WAITING"
    case REJECTED => "REJECTED"
  }

  /** `getEnumState`: the state whose name is the upper-cased parameter, or
      BadRequest quoting the parameter as it was sent. */
  function ParseState(state: string): (r: Result<BookingState>)
    ensures r.Ok? <==> exists s :: StateName(s) == Upper(state)
    ensures r.Ok? ==> StateName(r.value) == Upper(state)
    ensures r.Err? ==> r.error == BadRequest("Unknown state: " + state)
  {
    var name := Upper(state);
    if name == StateName(BookingState.ALL) then Ok(BookingState.ALL)
    else if name == StateName(BookingState.CURRENT) then Ok(BookingState.CURRENT)
    else if name == StateName(BookingState.PAST) then Ok(BookingState.PAST)
    else if name == StateName(BookingState.FUTURE) then Ok(BookingState.FUTURE)
    else if name == StateName(BookingState.WAITING) then Ok(BookingState.WAITING)
    else if name == StateName(BookingState.REJECTED) then Ok(BookingState.REJECTED)
    else Err(BadRequest("Unknown state: " + state))
  }

  /** Every name is made of capital letters only. */
  lemma StateNameIsCapitals(s: BookingState)
    ensures forall i :: 0 <= i < |StateName(s)| ==> 'A' <= StateName(s)[i] <= 'Z'
  {
  }

  /** Every state parses back from its name, whatever the letter case the
      client used. */
  lemma {:induction false} ParseStateName(s: BookingState)
    ensures ParseState(StateName(s)) == Ok(s)
    ensures ParseState(Lower(StateName(s))) == Ok(s)
  {
    StateNameIsCapitals(s);
    CapitalsAreUpper(StateName(s));
    UpperOfLowerCapitals(StateName(s));
  }

  /** Two spellings that agree up to letter case parse alike; only the
      error message keeps the client's spelling. */
  lemma ParseIgnoresCase(a: string, b: string)
    requires Upper(a) == Upper(b)
    ensures ParseState(a).Ok? == ParseState(b).Ok?
    ensures ParseState(a).Ok? ==> ParseState(a) == ParseState(b)
  {
  }

  /** The bounds of a listing request, after defaults. */
  datatype ListingQuery = ListingQuery(state: BookingState, from: int, size: int)

  const DefaultState: string := "ALL"
  const DefaultFrom: int := 0
  const DefaultSize: int := 20

  /** The gateway's reading of `state`, `from` and `size`; `None` is a
      parameter that is absent or empty, which takes the default. The bounds
      `@PositiveOrZero from` and `@Positive size` are checked by method
      validation before the body runs: every parameter that breaks its bound
      is reported, and a bad bound is reported even when the state is
      unknown too. */
  function ReadQuery(state: Option<string>, from: Option<int>, size: Option<int>): (r: Result<ListingQuery>)
    ensures r.Err? && r.error.Invalid? <==> from.GetOr(DefaultFrom) < 0 || size.GetOr(DefaultSize) <= 0
    ensures r.Err? && r.error.Invalid? ==>
              forall p :: p in r.error.parameters <==>
                (p == "from" && from.GetOr(DefaultFrom) < 0) || (p == "size" && size.GetOr(DefaultSize) <= 0)
    ensures from.GetOr(DefaultFrom) >= 0 && size.GetOr(DefaultSize) > 0
            ==> (r.Ok? <==> ParseState(state.GetOr(DefaultState)).Ok?)
    ensures from.GetOr(DefaultFrom) >= 0 && size.GetOr(DefaultSize) > 0 && r.Err?
            ==> r == Err(BadRequest("Unknown state: " + state.GetOr(DefaultState)))
    ensures r.Ok? ==> r.value.from == from.GetOr(DefaultFrom) && r.value.size == size.GetOr(DefaultSize)
                      && Ok(r.value.state) == ParseState(state.GetOr(DefaultState))
    ensures r.Ok? ==> r.value.from >= 0 && r.value.size > 0
  {
    var f := from.GetOr(DefaultFrom);
    var n := size.GetOr(DefaultSize);
    var violated := (if f < 0 then {"from"} else {}) + (if n <= 0 then {"size"} else {});
    if violated != {} then Err(Invalid(violated))
    else
      var s :- ParseState(state.GetOr(DefaultState));
      Ok(ListingQuery(s, f, n))
  }

  /** Both bounds broken: both parameters are named, whatever the state. */
  lemma BothBoundsReported(state: Option<string>)
    ensures ReadQuery(state, Some(-1), Some(0)) == Err(Invalid({"from", "size"}))
  {
  }

  /** With no parameters at all the request is the first twenty of ALL. */
  lemma {:induction false} DefaultQuery()
    ensures ReadQuery(None, None, None) == Ok(ListingQuery(BookingState.ALL, 0, 20))
  {
    ParseStateName(BookingState.ALL);
  }

  /** A listing as the client sees it: the gateway reads the request and
      the service answers it. A request the gateway accepts always meets
      the service's bounds. */
  function GatewayListing(rows: seq<Booking>, scope: Scope, userId: Id, state: Option<string>,
                          from: Option<int>, size: Option<int>, now: Time)
    : (r: Result<seq<BookingWithStatusDto>>)
    ensures ReadQuery(state, from, size).Err? ==> r == Err(ReadQuery(state, from, size).error)
    ensures ReadQuery(state, from, size).Ok? ==>
              var q := ReadQuery(state, from, size).value;
              r == BookingService.Listing(rows, scope, userId, q.state, q.from, q.size, now)
  {
    var q :- ReadQuery(state, from, size);
    BookingService.Listing(rows, scope, userId, q.state, q.from, q.size, now)
  }
}
