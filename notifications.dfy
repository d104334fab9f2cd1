/** The notification feed: the "time ago" label, the optimistic mark-as-read
    update of the list, where a click navigates, and the icon per type. */
module Notifications {
  import opened Wrappers
  import JsArray
  import JsText
  import BottomNav

  /** A notification as the backend sends it; `kind` is its `type` field. */
  datatype Notification = Notification(
    id: string, kind: string, title: string, message: string,
    relatedId: Option<string>, isRead: bool, createdAt: string)

  // ----- Time ago ---------------------------------------------------------------

  /** The label `formatTimeAgo` picks; `LocaleDate` is the date printed by
      `toLocaleDateString('id-ID')`. */
  datatype TimeAgo = JustNow | MinutesAgo(minutes: int) | HoursAgo(hours: int) | DaysAgo(days: int) | LocaleDate

  const MS_PER_MINUTE := 60_000
  const MS_PER_HOUR := 3_600_000
  const MS_PER_DAY := 86_400_000

  /** `formatTimeAgo` on the difference `now - date` in milliseconds. Every
      `Math.floor(x / n)` is a division by a positive constant, which Dafny's
      `/` rounds down as `Math.floor` does. Less than a minute, including any
      negative difference of a timestamp in the future, is "Baru saja"; each
      count stays within its bucket (minutes 1..59, hours 1..23, days 1..6);
      from seven days on the date is shown. */
  function FormatTimeAgo(diffMs: int): (r: TimeAgo)
    ensures r == JustNow <==> diffMs < MS_PER_MINUTE
    ensures r.MinutesAgo? ==> 1 <= r.minutes <= 59
    ensures r.HoursAgo? ==> 1 <= r.hours <= 23
    ensures r.DaysAgo? ==> 1 <= r.days <= 6
    ensures r == LocaleDate <==> diffMs >= 7 * MS_PER_DAY
  {
    var seconds := diffMs / 1000;
    if seconds < 60 then JustNow
    else
      var minutes := seconds / 60;
      if minutes < 60 then MinutesAgo(minutes)
      else
        var hours := minutes / 60;
        if hours < 24 then HoursAgo(hours)
        else
          var days := hours / 24;
          if days < 7 then DaysAgo(days) else LocaleDate
  }

  /** Each count is the number of whole units elapsed. */
  lemma {:induction false} TimeAgoBuckets(diffMs: int)
    ensures FormatTimeAgo(diffMs).MinutesAgo? ==>
              var n := FormatTimeAgo(diffMs).minutes;
              n * MS_PER_MINUTE <= diffMs < (n + 1) * MS_PER_MINUTE
    ensures FormatTimeAgo(diffMs).HoursAgo? ==>
              var n := FormatTimeAgo(diffMs).hours;
              n * MS_PER_HOUR <= diffMs < (n + 1) * MS_PER_HOUR
    ensures FormatTimeAgo(diffMs).DaysAgo? ==>
              var n := FormatTimeAgo(diffMs).days;
              n * MS_PER_DAY <= diffMs < (n + 1) * MS_PER_DAY
  {
    var s := diffMs / 1000;
    var m := s / 60;
    var h := m / 60;
    var d := h / 24;
    assert 1000 * s <= diffMs < 1000 * s + 1000;
    assert 60 * m <= s < 60 * m + 60;
    assert 60 * h <= m < 60 * h + 60;
    assert 24 * d <= h < 24 * d + 24;
    assert m * MS_PER_MINUTE <= diffMs < (m + 1) * MS_PER_MINUTE;
    assert h * MS_PER_HOUR <= diffMs < (h + 1) * MS_PER_HOUR;
    assert d * MS_PER_DAY <= diffMs < (d + 1) * MS_PER_DAY;
  }

  // ----- Mark as read ---------------------------------------------------------------

  /** `prev.map((n) => n.id === id ? { ...n, is_read: true } : n)`: sets
      `is_read` on every entry with the clicked id and changes nothing else,
      not the other entries, not the length, not the order. */
  function MarkRead(list: seq<Notification>, id: string): (r: seq<Notification>)
    ensures |r| == |list|
    ensures forall i :: 0 <= i < |list| ==>
              r[i].isRead == (list[i].isRead || list[i].id == id) && r[i].(isRead := list[i].isRead) == list[i]
  {
    JsArray.Map(list, (n: Notification) => if n.id == id then n.(isRead := true) else n)
  }

  /** Applying it twice is applying it once. */
  lemma MarkReadIdempotent(list: seq<Notification>, id: string)
    ensures MarkRead(MarkRead(list, id), id) == MarkRead(list, id)
  {
    var once := MarkRead(list, id);
    assert forall i :: 0 <= i < |list| ==> MarkRead(once, id)[i] == once[i];
  }

  // ----- Routing and icons ------------------------------------------------------------

  /** `notif.related_id` is truthy: present and not the empty string. */
  predicate HasRelated(n: Notification) {
    n.relatedId.Some? && n.relatedId.value != ""
  }

  /** The `router.push` target of a click, if any: the related place, exactly
      for wishlist and journal notifications that name one. */
  function RouteFor(n: Notification): (r: Option<string>)
    ensures r.Some? <==> (n.kind == "wishlist" || n.kind == "journal") && HasRelated(n)
    ensures r.Some? ==> r.value == "/wishlist/" + n.relatedId.value
  {
    if n.kind == "wishlist" && HasRelated(n) then Some("/wishlist/" + n.relatedId.value)
    else if n.kind == "journal" && HasRelated(n) then Some("/wishlist/" + n.relatedId.value)
    else None
  }

  /** The place page a click opens is one where the bottom bar is hidden. */
  lemma RouteHidesBottomNav(n: Notification)
    requires RouteFor(n).Some?
    ensures BottomNav.ShouldHideNav(RouteFor(n).value)
  {
    var path := RouteFor(n).value;
    assert path[..10] == "/wishlist/";
  }

  datatype NotificationIcon = BookmarkIcon | StarIcon | InfoIcon

  /** `renderIcon(type)`. */
  function IconFor(kind: string): (icon: NotificationIcon)
    ensures icon == BookmarkIcon <==> kind == "wishlist"
    ensures icon == StarIcon <==> kind == "journal"
    ensures icon == InfoIcon <==> kind != "wishlist" && kind != "journal"
  {
    match kind
    case "wishlist" => BookmarkIcon
    case "journal" => StarIcon
    case _ => InfoIcon
  }

  // ----- Page state ------------------------------------------------------------------

  /** What `fetchAPI("/notifications")` gave: a throw, or a body whose `data`
      is absent or a list. */
  datatype FetchResult = FetchFailed | Fetched(data: Option<seq<Notification>>)

  /** The page's `notifications` and `loading` state. */
  class NotificationsPage {
    var notifications: seq<Notification>
    var loading: bool

    constructor ()
      ensures notifications == [] && loading
    {
      notifications := [];
      loading := true;
    }

    /** The effect `fetchNotifications`: `setNotifications(res.data || [])`
        on success, nothing on failure, and `loading` false in both cases. */
    method FinishLoading(result: FetchResult)
      modifies this
      ensures !loading
      ensures notifications == match result
                               case FetchFailed => old(notifications)
                               case Fetched(data) => if data.Some? then data.value else []
    {
      if result.Fetched? {
        notifications := if result.data.Some? then result.data.value else [];
      }
      loading := false;
    }

    /** `handleNotificationClick(notif)`: the list is updated before the API
        call, and kept as it is when `markReadReturned` is false, that is when
        the call threw (the error is only logged); the result is the navigation target. */
    method HandleNotificationClick(notif: Notification, markReadReturned: bool) returns (navigation: Option<string>)
      modifies this
      ensures notifications == MarkRead(old(notifications), notif.id)
      ensures loading == old(loading)
      ensures navigation == RouteFor(notif)
    {
      notifications := MarkRead(notifications, notif.id);
      if notif.kind == "wishlist" && HasRelated(notif) {
        navigation := Some("/wishlist/" + notif.relatedId.value);
      } else if notif.kind == "journal" && HasRelated(notif) {
        navigation := Some("/wishlist/" + notif.relatedId.value);
      } else {
        navigation := None;
      }
    }
  }
}
