/** The booking run of `BadmintonBooking`: check the verified identity, query availability,
    pick the candidate courts, wait for the release instant, then try to create an order for each
    candidate in turn until one succeeds. The remote platform is a function from an order request
    to its decoded response; the results of the identity and availability queries are inputs. */
module Booking {
  import opened JsonValues
  import opened Catalog
  import ReleaseGate

  /** The `data` object of the verified-identity response. */
  datatype InfoData = InfoData(phonestr: Option<string>)

  /** The result of `get_user_verified_info`: an `error` when the request failed, otherwise the
      decoded reply. */
  datatype VerifiedInfoResponse = VerifiedInfoResponse(error: Option<string>, actionState: Option<int>, data: Option<InfoData>)

  /** The `data` object of an order reply: the payment link `codeUrl`, if present, and the
      order's other fields, which the run hands back untouched. */
  datatype OrderData = OrderData(codeUrl: Option<string>, fields: map<string, string>)

  /** The result of `create_order`: an `error` when the request failed, otherwise the decoded
      reply. */
  datatype OrderResponse = OrderResponse(error: Option<string>, actionState: Option<int>, data: Option<OrderData>)

  /** The body `create_order` posts for one court. */
  datatype OrderRequest = OrderRequest(
    apiVersion: string, orderType: int, userId: Option<string>, orderUser: int,
    soOpenid: string, phones: seq<Option<string>>, fullPath: string)

  /** The externally visible steps of a run, in order. */
  datatype Step = FetchVerifiedInfo | FetchCourts(date: string) | WaitForRelease | CreateOrder(request: OrderRequest)

  /** What a run returns. `InfoFailed` and `CourtsFailed` hand back the failed query's result as
      it is; `NoCourtForSlot` and `AllFailed` are the two error messages the run composes;
      `NotReleased` means the clock readings ended before the gate opened. */
  datatype BookingResult =
    | InfoFailed(info: VerifiedInfoResponse)
    | CourtsFailed(courts: CourtsResponse)
    | NoCourtForSlot(timeSlot: string)
    | NotReleased
    | Booked(courtName: string, paymentUrl: string, orderInfo: OrderData)
    | AllFailed

  function OrderFor(courtId: string, userId: Option<string>, phone: Option<string>): (r: OrderRequest) {
    OrderRequest("1.4.121", 1, userId, 1, courtId, [phone],
                 "http://kfxy.ruizhiedu.com/#/pages/space/orderBatch?openid=" + courtId)
  }

  /** A reply counts as a booking when it carries no `error`, `actionState` is 1 and `data`
      holds a `codeUrl`. Anything else (a transport error, another status, a missing link)
      moves the loop to the next court. */
  predicate IsBooked(r: OrderResponse) {
    r.error.None? && r.actionState == Some(1) && r.data.Some? && r.data.value.codeUrl.Some?
  }

  function Respond(c: Candidate, userId: Option<string>, phone: Option<string>, gateway: OrderRequest -> OrderResponse): (r: OrderResponse) {
    gateway(OrderFor(c.courtId, userId, phone))
  }

  /** The phone string after `get_user_verified_info`: replaced by `data.phonestr` when the
      reply has `actionState` 1 and a `data` object, and otherwise left as it was. */
  function PhoneAfter(phone: Option<string>, info: VerifiedInfoResponse): (r: Option<string>) {
    if info.actionState == Some(1) && info.data.Some? then info.data.value.phonestr else phone
  }

  /** The order phase of a run that reached it: `orders` are the order calls made, one per
      candidate from the first on; every candidate before the last one ordered was refused;
      `AllFailed` means every candidate was ordered and refused, and `Booked` carries the name,
      payment link and order of the last one ordered, whose reply counts as a booking. */
  predicate OrderPhase(result: BookingResult, orders: seq<Step>, available: seq<Candidate>,
                       userId: Option<string>, phone: Option<string>, gateway: OrderRequest -> OrderResponse) {
    && 1 <= |orders| <= |available|
    && (forall k :: 0 <= k < |orders| ==> orders[k] == CreateOrder(OrderFor(available[k].courtId, userId, phone)))
    && (forall k :: 0 <= k < |orders| - 1 ==> !IsBooked(Respond(available[k], userId, phone, gateway)))
    && (result == AllFailed ==>
          |orders| == |available| && !IsBooked(Respond(available[|available| - 1], userId, phone, gateway)))
    && (result.Booked? ==>
          var r := Respond(available[|orders| - 1], userId, phone, gateway);
          IsBooked(r) && result == Booked(available[|orders| - 1].courtName, r.data.value.codeUrl.value, r.data.value))
  }

  class BadmintonBooking {
    var token: Option<string>
    var userId: Option<string>
    var phoneStr: Option<string>

    constructor ()
      ensures token == None && userId == None && phoneStr == None
    {
      token, userId, phoneStr := None, None, None;
    }

    /** The state change of `get_user_verified_info`, given the reply it decoded. */
    method GetUserVerifiedInfo(info: VerifiedInfoResponse) returns (r: VerifiedInfoResponse)
      modifies this`phoneStr
      ensures r == info
      ensures phoneStr == PhoneAfter(old(phoneStr), info)
    {
      if info.actionState == Some(1) && info.data.Some? {
        phoneStr := info.data.value.phonestr;
      }
      r := info;
    }

    /** `find_available_courts_by_time`: collect the qualifying entries in snapshot order, then
        sort them by name, descending, in place. */
    method FindAvailableCourtsByTime(courts: CourtsResponse, timeSlot: string) returns (available: seq<Candidate>)
      ensures courts.data.None? || courts.data.value.openSlice.None? ==> available == []
      ensures courts.data.Some? && courts.data.value.openSlice.Some? ==>
        var found := Qualifying(courts.data.value.openSlice.value, timeSlot);
        multiset(available) == multiset(found) && IsStableDescSortOf(available, found)
      ensures available == ResolveCandidates(courts, timeSlot)
    {
      if courts.data.None? || courts.data.value.openSlice.None? {
        return [];
      }
      var openSlice := courts.data.value.openSlice.value;
      var collected: seq<Candidate> := [];
      for i := 0 to |openSlice|
        invariant collected == Qualifying(openSlice[..i], timeSlot)
      {
        var e := openSlice[i];
        assert openSlice[..i + 1][..i] == openSlice[..i];
        if e.info.sliceTime == Some(timeSlot) && !EqualsOne(e.info.isLock) {
          collected := collected + [Candidate(e.courtId, NameOf(e.info))];
        }
      }
      assert openSlice[..|openSlice|] == openSlice;
      var list := new Candidate[|collected|](k requires 0 <= k < |collected| => collected[k]);
      assert list[..] == collected;
      SortByNameDescending(list);
      available := list[..];
      ResolveCandidatesCorrect(openSlice, timeSlot);
    }

    /** The claim loop: one order per candidate, in candidate order, returning the booking at
        the first reply that counts as one, and `AllFailed` when none does. `orders` lists the
        order calls made, in order. */
    method ClaimInOrder(available: seq<Candidate>, gateway: OrderRequest -> OrderResponse)
      returns (result: BookingResult, orders: seq<Step>)
      ensures result.Booked? || result == AllFailed
      ensures available == [] ==> result == AllFailed && orders == []
      ensures available != [] ==> OrderPhase(result, orders, available, userId, phoneStr, gateway)
    {
      orders := [];
      var i := 0;
      while i < |available|
        invariant 0 <= i <= |available| && |orders| == i
        invariant forall k :: 0 <= k < i ==> orders[k] == CreateOrder(OrderFor(available[k].courtId, userId, phoneStr))
        invariant forall k :: 0 <= k < i ==> !IsBooked(Respond(available[k], userId, phoneStr, gateway))
      {
        var court := available[i];
        var request := OrderFor(court.courtId, userId, phoneStr);
        orders := orders + [CreateOrder(request)];
        var orderResult := gateway(request);
        if orderResult.error.None? {
          if orderResult.actionState == Some(1) && orderResult.data.Some? && orderResult.data.value.codeUrl.Some? {
            result := Booked(court.courtName, orderResult.data.value.codeUrl.value, orderResult.data.value);
            return;
          }
        }
        i := i + 1;
      }
      result := AllFailed;
    }

    /** `complete_booking_process`, from the identity check on. */
    method CompleteBookingProcess(date: string, timeSlot: string, info: VerifiedInfoResponse, courts: CourtsResponse,
                                  clock: seq<nat>, gateway: OrderRequest -> OrderResponse)
      returns (result: BookingResult, trace: seq<Step>)
      modifies this`phoneStr
      ensures phoneStr == PhoneAfter(old(phoneStr), info)
      ensures |trace| >= 1 && trace[0] == FetchVerifiedInfo
      // identity check
      ensures info.error.Some? || !Truthy(phoneStr) ==> result == InfoFailed(info) && trace == [FetchVerifiedInfo]
      // availability query
      ensures info.error.None? && Truthy(phoneStr) ==> |trace| >= 2 && trace[1] == FetchCourts(date)
      ensures info.error.None? && Truthy(phoneStr) && courts.error.Some? ==>
        result == CourtsFailed(courts) && trace == [FetchVerifiedInfo, FetchCourts(date)]
      // no candidate: no wait, no order
      ensures info.error.None? && Truthy(phoneStr) && courts.error.None? && ResolveCandidates(courts, timeSlot) == [] ==>
        result == NoCourtForSlot(timeSlot) && trace == [FetchVerifiedInfo, FetchCourts(date)]
      // candidates: wait, then claim in order
      ensures info.error.None? && Truthy(phoneStr) && courts.error.None? && ResolveCandidates(courts, timeSlot) != [] ==>
        |trace| >= 3 && trace[..3] == [FetchVerifiedInfo, FetchCourts(date), WaitForRelease]
      ensures info.error.None? && Truthy(phoneStr) && courts.error.None? && ResolveCandidates(courts, timeSlot) != [] ==>
        (result == NotReleased || result.Booked? || result == AllFailed) &&
        (result == NotReleased <==>
           (|clock| == 0 || forall k :: 0 <= k < |clock| ==> clock[k] < ReleaseGate.TargetFor(clock[0])))
      ensures result == NotReleased ==> trace == [FetchVerifiedInfo, FetchCourts(date), WaitForRelease]
      ensures result.Booked? || result == AllFailed ==>
        |trace| >= 4 && trace[..3] == [FetchVerifiedInfo, FetchCourts(date), WaitForRelease] &&
        OrderPhase(result, trace[3..], ResolveCandidates(courts, timeSlot), userId, phoneStr, gateway)
    {
      trace := [FetchVerifiedInfo];
      var userInfoResult := GetUserVerifiedInfo(info);
      if userInfoResult.error.Some? || !Truthy(phoneStr) {
        return InfoFailed(userInfoResult), trace;
      }

      trace := trace + [FetchCourts(date)];
      if courts.error.Some? {
        return CourtsFailed(courts), trace;
      }

      var available := FindAvailableCourtsByTime(courts, timeSlot);
      if available == [] {
        return NoCourtForSlot(timeSlot), trace;
      }

      trace := trace + [WaitForRelease];
      var released, _ := ReleaseGate.AwaitRelease(clock);
      if released.None? {
        return NotReleased, trace;
      }

      var orders;
      result, orders := ClaimInOrder(available, gateway);
      trace := trace + orders;
      assert trace[3..] == orders;
    }
  }
}
