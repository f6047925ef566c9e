/**
 * The chat list page's display rules (frontend/src/pages/ChatList/index.tsx): the order of
 * the rooms, the relative time shown next to a participant or a last message, and the
 * unread badge. Times are milliseconds since the epoch; the current time is a parameter.
 */
module ChatList {
  import opened Base
  import opened Seqs
  import opened Text

  datatype Message = Message(content: string, timestamp: int)

  /** The fields of a room the page's rules read. */
  datatype ChatRoom = ChatRoom(id: string, lastMessage: Option<Message>, unreadCount: int)

  predicate HasMessages(r: ChatRoom) {
    r.lastMessage.Some?
  }

  // ----- ordering -----

  /** The comparator passed to `sort`: negative when `a` goes first. */
  function CompareRooms(a: ChatRoom, b: ChatRoom): (r: int)
    ensures r < 0 <==> RankBefore(RankOf(a), RankOf(b))
    ensures r == 0 <==> RankOf(a) == RankOf(b)
  {
    if !HasMessages(a) && HasMessages(b) then -1
    else if HasMessages(a) && !HasMessages(b) then 1
    else if !HasMessages(a) && !HasMessages(b) then 0
    else b.unreadCount - a.unreadCount
  }

  /** The group a room falls in: new matches, then one group per unread count. */
  datatype Rank = NewMatch | Unread(count: int)

  function RankOf(r: ChatRoom): Rank {
    if HasMessages(r) then Unread(r.unreadCount) else NewMatch
  }

  /** The intended display order on groups: new matches first, then more unread first. */
  predicate RankBefore(x: Rank, y: Rank) {
    (x.NewMatch? && y.Unread?) || (x.Unread? && y.Unread? && x.count > y.count)
  }

  /** The comparator orders rooms exactly by their group. */
  lemma CompareIsRankOrder(a: ChatRoom, b: ChatRoom)
    ensures CompareRooms(a, b) < 0 <==> RankBefore(RankOf(a), RankOf(b))
    ensures CompareRooms(a, b) > 0 <==> RankBefore(RankOf(b), RankOf(a))
    ensures CompareRooms(a, b) == 0 <==> RankOf(a) == RankOf(b)
  {
  }

  /** A room without messages goes before any room with one; two of them tie. */
  lemma NewMatchesFirst(a: ChatRoom, b: ChatRoom)
    ensures !HasMessages(a) && HasMessages(b) ==> CompareRooms(a, b) < 0 && CompareRooms(b, a) > 0
    ensures !HasMessages(a) && !HasMessages(b) ==> CompareRooms(a, b) == 0
    ensures HasMessages(a) && HasMessages(b) ==> (CompareRooms(a, b) < 0 <==> a.unreadCount > b.unreadCount)
  {
  }

  /** The comparator is consistent, as `Array.prototype.sort` requires. */
  lemma CompareConsistent(a: ChatRoom, b: ChatRoom, c: ChatRoom)
    ensures CompareRooms(a, b) < 0 <==> CompareRooms(b, a) > 0
    ensures CompareRooms(a, b) == 0 <==> CompareRooms(b, a) == 0
    ensures CompareRooms(a, b) <= 0 && CompareRooms(b, c) <= 0 ==> CompareRooms(a, c) <= 0
    ensures CompareRooms(a, b) == 0 && CompareRooms(b, c) == 0 ==> CompareRooms(a, c) == 0
  {
  }

  predicate SortedRooms(s: seq<ChatRoom>) {
    forall i, j :: 0 <= i < j < |s| ==> CompareRooms(s[i], s[j]) <= 0
  }

  function SameRank(k: Rank): ChatRoom -> bool {
    (r: ChatRoom) => RankOf(r) == k
  }

  /** Places `x` in front of the first room it does not follow, keeping ties in order. */
  function InsertRoom(x: ChatRoom, s: seq<ChatRoom>): (r: seq<ChatRoom>)
    requires SortedRooms(s)
    ensures multiset(r) == multiset(s) + multiset{x} && |r| == |s| + 1
    ensures SortedRooms(r)
  {
    if s == [] then [x]
    else if CompareRooms(x, s[0]) <= 0 then
      forall j | 0 < j < |s| + 1 ensures CompareRooms(x, ([x] + s)[j]) <= 0 {
        CompareConsistent(x, s[0], s[j - 1]);
      }
      [x] + s
    else
      assert SortedRooms(s[1..]);
      var rest := InsertRoom(x, s[1..]);
      assert s == [s[0]] + s[1..];
      InsertedAfterHead(x, s, rest);
      [s[0]] + rest
  }

  lemma InsertedAfterHead(x: ChatRoom, s: seq<ChatRoom>, rest: seq<ChatRoom>)
    requires s != [] && SortedRooms(s) && CompareRooms(x, s[0]) > 0
    requires multiset(rest) == multiset(s[1..]) + multiset{x} && SortedRooms(rest)
    ensures SortedRooms([s[0]] + rest)
  {
    var r := [s[0]] + rest;
    forall j | 0 < j < |r| ensures CompareRooms(s[0], r[j]) <= 0 {
      assert r[j] == rest[j - 1];
      assert r[j] in multiset(rest);
      if r[j] != x {
        assert r[j] in multiset(s[1..]);
        var m :| 0 <= m < |s[1..]| && s[1..][m] == r[j];
        assert s[m + 1] == r[j];
      }
    }
  }

  /** Ties keep their order: the rooms of one group appear as they did, `x` first. */
  lemma {:induction false} InsertRoomStable(x: ChatRoom, s: seq<ChatRoom>, k: Rank)
    requires SortedRooms(s)
    ensures Filter(InsertRoom(x, s), SameRank(k)) == Filter([x], SameRank(k)) + Filter(s, SameRank(k))
    decreases |s|
  {
    if s == [] {
      assert [x] + s == [x];
    } else if CompareRooms(x, s[0]) <= 0 {
      FilterAppend([x], s, SameRank(k));
    } else {
      assert SortedRooms(s[1..]);
      var rest := InsertRoom(x, s[1..]);
      assert InsertRoom(x, s) == [s[0]] + rest;
      InsertRoomStable(x, s[1..], k);
      CompareIsRankOrder(x, s[0]);
      assert s == [s[0]] + s[1..];
      FilterMoveBehind(s[0], x, s[1..], rest, SameRank(k));
    }
  }

  /**
   * `[...chatRooms].sort(compare)`: a sorted copy. `sort` is stable, so rooms that
   * compare equal keep their relative order.
   */
  function SortRooms(rooms: seq<ChatRoom>): (r: seq<ChatRoom>)
    ensures multiset(r) == multiset(rooms) && |r| == |rooms|
    ensures SortedRooms(r)
    ensures forall k :: Filter(r, SameRank(k)) == Filter(rooms, SameRank(k))
  {
    if rooms == [] then []
    else
      var rest := SortRooms(rooms[1..]);
      var r := InsertRoom(rooms[0], rest);
      assert rooms == [rooms[0]] + rooms[1..];
      forall k ensures Filter(r, SameRank(k)) == Filter(rooms, SameRank(k)) {
        InsertRoomStable(rooms[0], rest, k);
        FilterAppend([rooms[0]], rooms[1..], SameRank(k));
      }
      r
  }

  /** In the sorted list every new match precedes every room with messages. */
  lemma NewMatchesOnTop(rooms: seq<ChatRoom>, i: nat, j: nat)
    requires i < j < |SortRooms(rooms)|
    ensures HasMessages(SortRooms(rooms)[i]) ==> HasMessages(SortRooms(rooms)[j])
    ensures HasMessages(SortRooms(rooms)[i]) ==>
      SortRooms(rooms)[i].unreadCount >= SortRooms(rooms)[j].unreadCount
  {
    var s := SortRooms(rooms);
    assert CompareRooms(s[i], s[j]) <= 0;
  }

  // ----- relative times -----

  const MillisPerMinute := 1000 * 60

  /** `Math.floor((now - earlier) / (1000 * 60))`; negative for a time in the future. */
  function ElapsedMinutes(now: int, earlier: int): (m: int)
    ensures m * MillisPerMinute <= now - earlier < (m + 1) * MillisPerMinute
  {
    (now - earlier) / MillisPerMinute
  }

  datatype Elapsed = JustNow | MinutesAgo(minutes: nat) | HoursAgo(hours: nat) | DaysAgo(days: nat)

  /** The bucket a whole-minute difference falls in, and the count shown for it. */
  function Bucket(minutes: int): (e: Elapsed)
    ensures e.JustNow? <==> minutes < 1
    ensures e.MinutesAgo? <==> 1 <= minutes < 60
    ensures e.HoursAgo? <==> 60 <= minutes < 1440
    ensures e.DaysAgo? <==> minutes >= 1440
    ensures e.MinutesAgo? ==> e.minutes == minutes
    ensures e.HoursAgo? ==> 1 <= e.hours <= 23 && e.hours * 60 <= minutes < (e.hours + 1) * 60
    ensures e.DaysAgo? ==> e.days >= 1 && e.days * 1440 <= minutes < (e.days + 1) * 1440
  {
    if minutes < 1 then JustNow
    else if minutes < 60 then MinutesAgo(minutes)
    else if minutes < 1440 then HoursAgo(minutes / 60)
    else DaysAgo(minutes / 1440)
  }

  function Label(e: Elapsed): string {
    match e
    case JustNow => "今"
    case MinutesAgo(n) => NatToString(n) + "分前"
    case HoursAgo(n) => NatToString(n) + "時間前"
    case DaysAgo(n) => NatToString(n) + "日前"
  }

  /** `formatLastSeen`: "now" exactly when less than a minute has passed (or the time is ahead). */
  function FormatLastSeen(now: int, lastSeen: int): (s: string)
    ensures s == "今" <==> now - lastSeen < MillisPerMinute
    ensures 1 <= ElapsedMinutes(now, lastSeen) < 60 ==>
      s == NatToString(ElapsedMinutes(now, lastSeen)) + "分前"
    ensures 60 <= ElapsedMinutes(now, lastSeen) < 1440 ==>
      s == NatToString(ElapsedMinutes(now, lastSeen) / 60) + "時間前"
    ensures ElapsedMinutes(now, lastSeen) >= 1440 ==>
      s == NatToString(ElapsedMinutes(now, lastSeen) / 1440) + "日前"
  {
    var e := Bucket(ElapsedMinutes(now, lastSeen));
    LabelIsNow(e);
    Label(e)
  }

  /** Only the "just now" bucket is labelled "今". */
  lemma LabelIsNow(e: Elapsed)
    ensures Label(e) == "今" <==> e.JustNow?
  {
    var t := LabelSuffix(e);
    assert !e.JustNow? ==> |Label(e)| >= |t| >= 2;
  }

  /** Different buckets, or different counts in one bucket, are shown differently. */
  lemma LabelInjective(e1: Elapsed, e2: Elapsed)
    ensures Label(e1) == Label(e2) ==> e1 == e2
  {
    if Label(e1) == Label(e2) && !e1.JustNow? && !e2.JustNow? {
      var s := Label(e1);
      var t1, t2 := LabelSuffix(e1), LabelSuffix(e2);
      assert s[|s| - 2] == t1[|t1| - 2] by {
        assert s == NatToString(LabelCount(e1)) + t1;
      }
      assert s[|s| - 2] == t2[|t2| - 2] by {
        assert s == NatToString(LabelCount(e2)) + t2;
      }
      assert t1 == t2;
      assert NatToString(LabelCount(e1)) == s[..|s| - |t1|] == NatToString(LabelCount(e2));
      NatToStringInjective(LabelCount(e1), LabelCount(e2));
    } else if Label(e1) == Label(e2) && (e1.JustNow? || e2.JustNow?) {
      assert |LabelSuffix(e1)| >= 1 && |LabelSuffix(e2)| >= 1;
    }
  }

  function LabelSuffix(e: Elapsed): (t: string)
    ensures |t| >= 1 && (e.JustNow? ==> t == Label(e))
    ensures !e.JustNow? ==> Label(e) == NatToString(LabelCount(e)) + t && |t| >= 2
  {
    match e
    case JustNow => "今"
    case MinutesAgo(_) => "分前"
    case HoursAgo(_) => "時間前"
    case DaysAgo(_) => "日前"
  }

  function LabelCount(e: Elapsed): nat {
    match e
    case JustNow => 0
    case MinutesAgo(n) => n
    case HoursAgo(n) => n
    case DaysAgo(n) => n
  }

  /** The shown text determines the bucket and the count. */
  lemma LastSeenDeterminesBucket(now: int, seen1: int, seen2: int)
    ensures FormatLastSeen(now, seen1) == FormatLastSeen(now, seen2) ==>
      Bucket(ElapsedMinutes(now, seen1)) == Bucket(ElapsedMinutes(now, seen2))
  {
    LabelInjective(Bucket(ElapsedMinutes(now, seen1)), Bucket(ElapsedMinutes(now, seen2)));
  }

  /**
   * `formatMessageTime`: the same buckets below one day; from one day on, the
   * platform's date rendering `localeDate` of the timestamp.
   */
  function FormatMessageTime(now: int, timestamp: int, localeDate: string): (s: string)
    ensures ElapsedMinutes(now, timestamp) < 1440 ==> s == FormatLastSeen(now, timestamp)
    ensures ElapsedMinutes(now, timestamp) >= 1440 ==> s == localeDate
  {
    var minutes := ElapsedMinutes(now, timestamp);
    if minutes < 1 then "今"
    else if minutes < 60 then NatToString(minutes) + "分前"
    else if minutes < 1440 then NatToString(minutes / 60) + "時間前"
    else localeDate
  }

  // ----- unread badge -----

  /** The badge: shown only with unread messages, capped at "5+". */
  function BadgeLabel(unreadCount: int): (b: Option<string>)
    ensures b.Some? <==> unreadCount > 0
    ensures unreadCount >= 5 ==> b == Some("5+")
    ensures 0 < unreadCount < 5 ==> b.Some? && AllDigits(b.value) && DigitsValue(b.value) == unreadCount
  {
    if unreadCount > 0 then
      DigitsValueOfNatToString(if unreadCount >= 5 then 0 else unreadCount);
      Some(if unreadCount >= 5 then "5+" else NatToString(unreadCount))
    else None
  }

  /** Counts below the cap are told apart, and none of them reads like the cap. */
  lemma BadgeDistinguishes(m: int, n: int)
    requires 0 < m < 5 && 0 < n
    ensures BadgeLabel(m) != BadgeLabel(5)
    ensures n < 5 && BadgeLabel(m) == BadgeLabel(n) ==> m == n
  {
    assert !IsDigit("5+"[1]);
  }
}
