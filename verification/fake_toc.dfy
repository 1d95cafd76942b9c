/** Composition of a disc TOC from track information by libburn/mmc.c. */
module FakeToc {

  // ---------- numbers in drive replies

  /** The value of a 32 bit int. */
  function ToInt32(x: int): (r: int)
    ensures -0x8000_0000 <= r < 0x8000_0000
    ensures -0x8000_0000 <= x < 0x8000_0000 ==> r == x
  {
    (x + 0x8000_0000) % 0x1_0000_0000 - 0x8000_0000
  }

  predicate IsFourChar(data: seq<int>) {
    |data| == 4 && forall k :: 0 <= k < 4 ==> 0 <= data[k] < 256
  }

  function FourCharToInt(data: seq<int>): int
    requires IsFourChar(data)
  {
    ToInt32(data[0] * 0x100_0000 + data[1] * 0x1_0000 + data[2] * 0x100 + data[3])
  }

  function IntToFourChar(num: int): (data: seq<int>)
    ensures IsFourChar(data)
  {
    [num / 0x100_0000 % 256, num / 0x1_0000 % 256, num / 0x100 % 256, num % 256]
  }

  /** Numbers survive their way through four bytes, as far as they fit into 32 bits. */
  lemma FourCharRoundTrip(num: int)
    ensures FourCharToInt(IntToFourChar(num)) == ToInt32(num)
  {
    var a, b, c := num / 0x100, num / 0x1_0000, num / 0x100_0000;
    assert b == a / 256 && c == b / 256;
    var d := c / 256;
    assert num == d * 0x1_0000_0000 + c % 256 * 0x100_0000 + b % 256 * 0x1_0000 + a % 256 * 0x100 + num % 256;
    Modulo32(num - d * 0x1_0000_0000, d);
  }

  lemma Modulo32(x: int, d: int)
    ensures ToInt32(x + d * 0x1_0000_0000) == ToInt32(x)
  {}

  lemma BytesOf(a: int, b: int, c: int, d: int)
    requires 0 <= a < 256 && 0 <= b < 256 && 0 <= c < 256 && 0 <= d < 256
    ensures IntToFourChar(a * 0x100_0000 + b * 0x1_0000 + c * 0x100 + d) == [a, b, c, d]
  {
    var v := a * 0x100_0000 + b * 0x1_0000 + c * 0x100 + d;
    assert v / 0x100 == a * 0x1_0000 + b * 0x100 + c;
    assert v / 0x1_0000 == a * 0x100 + b;
    assert v / 0x100_0000 == a;
  }

  /** One byte of a number after subtraction of k * 256 * unit. */
  lemma SameByte(v: int, unit: int, k: int)
    requires unit == 1 || unit == 0x100 || unit == 0x1_0000 || unit == 0x100_0000
    ensures (v - k * 256 * unit) / unit % 256 == v / unit % 256
  {
    assert (v - k * 256 * unit) / unit == v / unit - k * 256;
  }

  lemma BytesModulo32(v: int)
    ensures IntToFourChar(v - 0x1_0000_0000) == IntToFourChar(v)
  {
    SameByte(v, 1, 0x100_0000);
    SameByte(v, 0x100, 0x1_0000);
    SameByte(v, 0x1_0000, 0x100);
    SameByte(v, 0x100_0000, 1);
  }

  lemma BytesRoundTrip(data: seq<int>)
    requires IsFourChar(data)
    ensures IntToFourChar(FourCharToInt(data)) == data
  {
    hide IntToFourChar;
    var v := data[0] * 0x100_0000 + data[1] * 0x1_0000 + data[2] * 0x100 + data[3];
    BytesOf(data[0], data[1], data[2], data[3]);
    BytesModulo32(v);
    assert FourCharToInt(data) == v || FourCharToInt(data) == v - 0x1_0000_0000;
  }

  // ---------- entries

  /** Reply of READ TRACK INFORMATION. */
  datatype Info = Info(session: nat, start: int, size: int, lastAddress: int)

  const LEADOUT := 0xA2

  datatype Entry = NoEntry | Entry(session: nat, point: nat, start: int, blocks: int, lastAddress: int)

  datatype Write = Write(slot: nat, entry: Entry)

  /** What has been composed so far: the number of the latest session, the address and size of its latest track,
      all entries in the sequence of their making, and for each session the place of its leadout and the number of its
      last track. */
  datatype Toc = Toc(prev: nat, start: int, size: int, writes: seq<Write>, leadout: map<nat, nat>,
                     first: map<nat, nat>, last: map<nat, nat>)

  /** The leadout of the latest session, before track index i. */
  function WithLeadout(t: Toc, i: nat): Toc
    requires i > 0
  {
    var lba, slot := ToInt32(t.start + t.size), i - 1 + t.prev;
    t.(start := lba, size := 0, leadout := t.leadout[t.prev := slot],
       writes := t.writes + [Write(slot, Entry(t.prev, LEADOUT, lba, 0, ToInt32(lba - 1)))])
  }

  function WithTrack(t: Toc, i: nat, info: Info): Toc
    requires info.session > 0
  {
    var s := info.session;
    t.(start := info.start, size := info.size, prev := s,
       first := if t.prev != s then t.first[s := i + 1] else t.first, last := t.last[s := i + 1],
       writes := t.writes + [Write(i + s - 1, Entry(s, i + 1, info.start, info.size, info.lastAddress))])
  }

  function Step(t: Toc, i: nat, info: Info, sessions: nat): Toc
    requires t.prev > 0 ==> i > 0
  {
    if info.session == 0 then t
    else
      var u := if info.session != t.prev && t.prev > 0 then WithLeadout(t, i) else t;
      if info.session > sessions then u else WithTrack(u, i, info)
  }

  /** After the first n tracks. */
  function Composed(tracks: seq<Info>, sessions: nat, n: nat): (t: Toc)
    requires n <= |tracks|
    ensures t.prev > 0 ==> n > 0
    ensures t.prev <= sessions
  {
    if n == 0 then Toc(0, 0, 0, [], map[], map[], map[])
    else Step(Composed(tracks, sessions, n - 1), n - 1, tracks[n - 1], sessions)
  }

  /** All entries with the leadout of the last session. */
  function Complete(tracks: seq<Info>, sessions: nat): Toc {
    var t := Composed(tracks, sessions, |tracks|);
    if t.prev > 0 then WithLeadout(t, |tracks|) else t
  }

  // ---------- places

  predicate InRange(info: Info, sessions: nat) {
    1 <= info.session <= sessions
  }

  /** Among the tracks of sessions which get listed, session numbers do not fall. */
  predicate NeverFalls(tracks: seq<Info>, sessions: nat, n: nat)
    requires n <= |tracks|
  {
    forall i, j :: 0 <= i < j < n && InRange(tracks[i], sessions) && InRange(tracks[j], sessions) ==>
      tracks[i].session <= tracks[j].session
  }

  predicate Increasing(writes: seq<Write>) {
    forall i, j :: 0 <= i < j < |writes| ==> writes[i].slot < writes[j].slot
  }

  predicate Below(writes: seq<Write>, bound: int) {
    forall i :: 0 <= i < |writes| ==> writes[i].slot < bound
  }

  /** All places are within the array, whatever the drive replies. */
  lemma {:induction false} SlotsInRange(tracks: seq<Info>, sessions: nat, n: nat)
    requires n <= |tracks|
    ensures Below(Composed(tracks, sessions, n).writes, n + sessions)
  {
    if n > 0 {
      SlotsInRange(tracks, sessions, n - 1);
    }
  }

  /** The latest session is the one of some track. */
  lemma {:induction false} PrevIsSession(tracks: seq<Info>, sessions: nat, n: nat)
    requires n <= |tracks|
    ensures var p := Composed(tracks, sessions, n).prev;
      p > 0 ==> exists i :: 0 <= i < n && tracks[i].session == p && InRange(tracks[i], sessions)
  {
    if n > 0 {
      PrevIsSession(tracks, sessions, n - 1);
    }
  }

  lemma LeadoutIncreases(t: Toc, i: nat)
    requires i > 0 && Increasing(t.writes) && Below(t.writes, i - 1 + t.prev)
    ensures Increasing(WithLeadout(t, i).writes) && Below(WithLeadout(t, i).writes, i + t.prev)
  {}

  lemma TrackIncreases(t: Toc, i: nat, info: Info)
    requires info.session > 0 && Increasing(t.writes) && Below(t.writes, i + info.session - 1)
    ensures Increasing(WithTrack(t, i, info).writes) && Below(WithTrack(t, i, info).writes, i + info.session)
  {}

  lemma {:induction false} SlotsIncrease(tracks: seq<Info>, sessions: nat, n: nat)
    requires n <= |tracks| && NeverFalls(tracks, sessions, n)
    ensures var t := Composed(tracks, sessions, n);
      Increasing(t.writes) && Below(t.writes, n - 1 + t.prev)
  {
    if n > 0 {
      hide WithLeadout, WithTrack, Increasing, Below;
      SlotsIncrease(tracks, sessions, n - 1);
      PrevIsSession(tracks, sessions, n - 1);
      var t, info := Composed(tracks, sessions, n - 1), tracks[n - 1];
      StepIncreases(t, n - 1, info, sessions);
    } else {
      assert Increasing([]) && Below([], 0);
    }
  }

  lemma StepIncreases(t: Toc, i: nat, info: Info, sessions: nat)
    requires (t.prev > 0 ==> i > 0) && Increasing(t.writes) && Below(t.writes, i - 1 + t.prev)
    requires InRange(info, sessions) ==> t.prev <= info.session
    ensures var u := Step(t, i, info, sessions); Increasing(u.writes) && Below(u.writes, i + u.prev)
  {
    hide Increasing;
    if t.prev > 0 {
      LeadoutIncreases(t, i);
    }
    if InRange(info, sessions) {
      var u := if info.session != t.prev && t.prev > 0 then WithLeadout(t, i) else t;
      TrackIncreases(u, i, info);
    }
  }

  predicate PrevIsLargest(tracks: seq<Info>, sessions: nat, n: nat)
    requires n <= |tracks|
  {
    forall i :: 0 <= i < n && InRange(tracks[i], sessions) ==> tracks[i].session <= Composed(tracks, sessions, n).prev
  }

  /** Before a track with a falling session number comes a leadout with a larger place. */
  lemma StepFalls(t: Toc, i: nat, info: Info, sessions: nat)
    requires (t.prev > 0 ==> i > 0) && InRange(info, sessions) && info.session < t.prev
    ensures !Increasing(Step(t, i, info, sessions).writes)
  {
    var u := WithTrack(WithLeadout(t, i), i, info).writes;
    assert u[|t.writes|].slot >= u[|t.writes| + 1].slot;
  }

  lemma StepExtends(t: Toc, i: nat, info: Info, sessions: nat)
    requires (t.prev > 0 ==> i > 0) && Increasing(Step(t, i, info, sessions).writes)
    ensures Increasing(t.writes)
  {
    var u := Step(t, i, info, sessions).writes;
    assert u[..|t.writes|] == t.writes;
    assert forall k :: 0 <= k < |t.writes| ==> u[k] == t.writes[k];
  }

  lemma {:induction false} IncreaseNeverFalls(tracks: seq<Info>, sessions: nat, n: nat)
    requires n <= |tracks| && Increasing(Composed(tracks, sessions, n).writes)
    ensures NeverFalls(tracks, sessions, n) && PrevIsLargest(tracks, sessions, n)
  {
    if n > 0 {
      hide WithLeadout, Increasing;
      var t, info := Composed(tracks, sessions, n - 1), tracks[n - 1];
      StepExtends(t, n - 1, info, sessions);
      IncreaseNeverFalls(tracks, sessions, n - 1);
      if InRange(info, sessions) && info.session < t.prev {
        StepFalls(t, n - 1, info, sessions);
      }
      if t.prev > 0 {
        LeadoutFields(t, n - 1);
      }
    }
  }

  /** Entries get written in the sequence of their places exactly if no session number falls. */
  lemma PlacesIncrease(tracks: seq<Info>, sessions: nat)
    ensures Increasing(Complete(tracks, sessions).writes) <==> NeverFalls(tracks, sessions, |tracks|)
  {
    hide NeverFalls;
    var n := |tracks|;
    var t := Composed(tracks, sessions, n);
    if NeverFalls(tracks, sessions, n) {
      SlotsIncrease(tracks, sessions, n);
      if t.prev > 0 {
        LeadoutIncreases(t, n);
      }
    }
    if Increasing(Complete(tracks, sessions).writes) {
      assert forall k :: 0 <= k < |t.writes| ==> Complete(tracks, sessions).writes[k] == t.writes[k];
      IncreaseNeverFalls(tracks, sessions, n);
    }
  }

  /** No place is used twice. */
  predicate Distinct(writes: seq<Write>) {
    forall i, j :: 0 <= i < j < |writes| ==> writes[i].slot != writes[j].slot
  }

  /** If no session number falls, then no entry overwrites another one. */
  lemma PlacesAreDistinct(tracks: seq<Info>, sessions: nat)
    requires NeverFalls(tracks, sessions, |tracks|)
    ensures Distinct(Complete(tracks, sessions).writes)
    ensures Below(Complete(tracks, sessions).writes, |tracks| + sessions)
  {
    SlotsIncrease(tracks, sessions, |tracks|);
    PlacesIncrease(tracks, sessions);
  }

  /** With two tracks, a falling session number makes entries overwrite each other exactly if it falls by 1 or 2. */
  lemma TwoTracksCollide(a: Info, b: Info, sessions: nat)
    requires 1 <= b.session < a.session <= sessions
    ensures Distinct(Complete([a, b], sessions).writes) <==> a.session - b.session > 2
  {
    TwoTracks(a, b, sessions);
    var w := Complete([a, b], sessions).writes;
    assert w[0].slot == a.session - 1 && w[1].slot == a.session && w[2].slot == b.session && w[3].slot == b.session + 1;
  }

  lemma TwoTracks(a: Info, b: Info, sessions: nat)
    requires 1 <= b.session < a.session <= sessions
    ensures var w := Complete([a, b], sessions).writes;
      && |w| == 4 && w[0].slot == a.session - 1 && w[1].slot == a.session && w[2].slot == b.session
      && w[3].slot == b.session + 1
  {
    var tracks := [a, b];
    assert Composed(tracks, sessions, 0).prev == 0;
    var t1 := Composed(tracks, sessions, 1);
    assert t1 == Step(Composed(tracks, sessions, 0), 0, a, sessions);
  }

  /** If a session number falls, then an entry may overwrite another one. */
  lemma FallingSessionsCollide(a: Info, b: Info)
    requires a.session == 2 && b.session == 1
    ensures var w := Complete([a, b], 2).writes; |w| == 4 && w[0].slot == w[2].slot
  {
    TwoTracks(a, b, 2);
  }

  /** Sessions are numbered without gap and each one has tracks. */
  predicate Consecutive(tracks: seq<Info>) {
    && (tracks != [] ==> tracks[0].session == 1)
    && forall i :: 0 < i < |tracks| ==>
         tracks[i].session == tracks[i - 1].session || tracks[i].session == tracks[i - 1].session + 1
  }

  predicate Dense(writes: seq<Write>) {
    forall k :: 0 <= k < |writes| ==> writes[k].slot == k
  }

  lemma {:induction false} ComposedDense(tracks: seq<Info>, sessions: nat, n: nat)
    requires n <= |tracks| && Consecutive(tracks) && forall i :: 0 <= i < n ==> tracks[i].session <= sessions
    ensures var t := Composed(tracks, sessions, n);
      && Dense(t.writes) && (n > 0 ==> t.prev == tracks[n - 1].session > 0 && |t.writes| == n + t.prev - 1)
      && (n == 0 ==> t.writes == [])
  {
    if n > 0 {
      ComposedDense(tracks, sessions, n - 1);
      assert n > 1 ==>
        tracks[n - 1].session == tracks[n - 2].session || tracks[n - 1].session == tracks[n - 2].session + 1;
    }
  }

  /** With consecutive sessions the entries fill the array from its start without gap, the leadouts among them. */
  lemma LayoutIsDense(tracks: seq<Info>, sessions: nat)
    requires tracks != [] && Consecutive(tracks) && forall i :: 0 <= i < |tracks| ==> tracks[i].session <= sessions
    ensures var t := Complete(tracks, sessions);
      Dense(t.writes) && |t.writes| == |tracks| + tracks[|tracks| - 1].session
  {
    ComposedDense(tracks, sessions, |tracks|);
  }

  // ---------- leadouts

  /** Index of the last track of a session among the first n tracks. -1 if there is none. */
  function LastOf(tracks: seq<Info>, n: nat, session: nat): (k: int)
    requires n <= |tracks|
    ensures -1 <= k < n && (k >= 0 ==> tracks[k].session == session)
  {
    if n == 0 then -1 else if tracks[n - 1].session == session then n - 1 else LastOf(tracks, n - 1, session)
  }

  function EndOf(info: Info): int {
    ToInt32(info.start + info.size)
  }

  /** The leadout entry of a session is at the recorded place and begins at the given address. */
  ghost predicate HasLeadout(t: Toc, session: nat, start: int) {
    session in t.leadout &&
    exists k :: 0 <= k < |t.writes| &&
      t.writes[k] == Write(t.leadout[session], Entry(session, LEADOUT, start, 0, ToInt32(start - 1)))
  }

  /** If session s is the latest one, then it ends where its last track ends. Else it has its leadout there. */
  ghost predicate SessionOk(tracks: seq<Info>, n: nat, t: Toc, s: nat)
    requires n <= |tracks|
  {
    var k := LastOf(tracks, n, s);
    && (t.prev == s ==> k >= 0 && ToInt32(t.start + t.size) == EndOf(tracks[k]))
    && (t.prev != s && k >= 0 ==> HasLeadout(t, s, EndOf(tracks[k])))
    && (if k >= 0 then s in t.last && t.last[s] == k + 1 else s !in t.last)
  }

  lemma LeadoutMade(t: Toc, i: nat, s: nat, a: int)
    requires i > 0
    ensures HasLeadout(WithLeadout(t, i), t.prev, ToInt32(t.start + t.size))
    ensures WithLeadout(t, i).start + WithLeadout(t, i).size == ToInt32(t.start + t.size)
    ensures s != t.prev && HasLeadout(t, s, a) ==> HasLeadout(WithLeadout(t, i), s, a)
  {
    var u := WithLeadout(t, i);
    assert u.writes[|t.writes|].slot == u.leadout[t.prev];
    if s != t.prev && HasLeadout(t, s, a) {
      var k :| 0 <= k < |t.writes| && t.writes[k] == Write(t.leadout[s], Entry(s, LEADOUT, a, 0, ToInt32(a - 1)));
      assert u.writes[k] == t.writes[k];
    }
  }

  lemma TrackKeepsLeadout(t: Toc, i: nat, info: Info, s: nat, a: int)
    requires info.session > 0 && HasLeadout(t, s, a)
    ensures HasLeadout(WithTrack(t, i, info), s, a)
  {
    var k :| 0 <= k < |t.writes| && t.writes[k] == Write(t.leadout[s], Entry(s, LEADOUT, a, 0, ToInt32(a - 1)));
    assert WithTrack(t, i, info).writes[k] == t.writes[k];
  }

  /** Before a track of another session, the latest session gets its leadout. */
  lemma LeadoutKeeps(tracks: seq<Info>, n: nat, t: Toc, s: nat)
    requires 0 < n <= |tracks| && SessionOk(tracks, n, t, s)
    ensures SessionOk(tracks, n, WithLeadout(t, n), s)
    ensures t.prev == s ==> HasLeadout(WithLeadout(t, n), s, EndOf(tracks[LastOf(tracks, n, s)]))
  {
    hide HasLeadout, LastOf;
    var k := LastOf(tracks, n, s);
    LeadoutMade(t, n, s, if k >= 0 then EndOf(tracks[k]) else 0);
  }

  lemma StepKeeps(tracks: seq<Info>, sessions: nat, n: nat, t: Toc, s: nat)
    requires n < |tracks| && SessionOk(tracks, n, t, s) && (t.prev > 0 ==> n > 0) && t.prev <= sessions
      && 1 <= s <= sessions
    ensures SessionOk(tracks, n + 1, Step(t, n, tracks[n], sessions), s)
  {
    hide HasLeadout;
    var info, k := tracks[n], LastOf(tracks, n, s);
    if t.prev > 0 {
      LeadoutKeeps(tracks, n, t, s);
    }
    var u := if info.session != t.prev && t.prev > 0 then WithLeadout(t, n) else t;
    assert LastOf(tracks, n + 1, s) == if info.session == s then n else k;
    if 0 < info.session && k >= 0 && HasLeadout(u, s, EndOf(tracks[k])) {
      TrackKeepsLeadout(u, n, info, s, EndOf(tracks[k]));
    }
  }

  lemma {:induction false} ComposedSession(tracks: seq<Info>, sessions: nat, n: nat, s: nat)
    requires n <= |tracks| && 1 <= s <= sessions
    ensures SessionOk(tracks, n, Composed(tracks, sessions, n), s)
  {
    if n > 0 {
      hide SessionOk, Step;
      ComposedSession(tracks, sessions, n - 1, s);
      StepKeeps(tracks, sessions, n - 1, Composed(tracks, sessions, n - 1), s);
    }
  }

  /** In the end each session with tracks has a leadout which begins where its last track ends. */
  lemma LeadoutFollowsLastTrack(tracks: seq<Info>, sessions: nat, s: nat)
    requires 1 <= s <= sessions && LastOf(tracks, |tracks|, s) >= 0
    ensures var t, k := Complete(tracks, sessions), LastOf(tracks, |tracks|, s);
      HasLeadout(t, s, EndOf(tracks[k])) && s in t.last && t.last[s] == k + 1
  {
    hide HasLeadout, Step, LastOf;
    ComposedSession(tracks, sessions, |tracks|, s);
    var t := Composed(tracks, sessions, |tracks|);
    if t.prev > 0 {
      LeadoutKeeps(tracks, |tracks|, t, s);
    }
  }

  // ---------- entries at their places

  /** The array of entries after some of them have been written. */
  function Applied(n: nat, writes: seq<Write>): (entries: seq<Entry>)
    requires Below(writes, n)
    ensures |entries| == n
  {
    if writes == [] then seq(n, _ => NoEntry)
    else
      var w := writes[|writes| - 1];
      Applied(n, writes[..|writes| - 1])[w.slot := w.entry]
  }

  /** If no place is used twice, then all entries are to be found where they have been written. */
  lemma {:induction false} AllAreThere(n: nat, writes: seq<Write>)
    requires Below(writes, n) && Distinct(writes)
    ensures forall k :: 0 <= k < |writes| ==> Applied(n, writes)[writes[k].slot] == writes[k].entry
  {
    if writes != [] {
      AllAreThere(n, writes[..|writes| - 1]);
    }
  }

  // ---------- what the table tells about tracks and sessions

  lemma StepAppends(t: Toc, i: nat, info: Info, sessions: nat, w: Write)
    requires (t.prev > 0 ==> i > 0) && w in t.writes
    ensures w in Step(t, i, info, sessions).writes
  {}

  lemma StepWritesTrack(t: Toc, i: nat, info: Info, sessions: nat)
    requires (t.prev > 0 ==> i > 0) && InRange(info, sessions)
    ensures Write(i + info.session - 1, Entry(info.session, i + 1, info.start, info.size, info.lastAddress))
      in Step(t, i, info, sessions).writes
  {}

  /** Each track gets its entry. */
  lemma {:induction false} TrackIsWritten(tracks: seq<Info>, sessions: nat, n: nat, i: nat)
    requires i < n <= |tracks| && InRange(tracks[i], sessions)
    ensures var info := tracks[i];
      Write(i + info.session - 1, Entry(info.session, i + 1, info.start, info.size, info.lastAddress))
        in Composed(tracks, sessions, n).writes
  {
    hide Step;
    var t, info := Composed(tracks, sessions, n - 1), tracks[i];
    if i == n - 1 {
      StepWritesTrack(t, i, info, sessions);
    } else {
      TrackIsWritten(tracks, sessions, n - 1, i);
      StepAppends(t, n - 1, tracks[n - 1], sessions,
                  Write(i + info.session - 1, Entry(info.session, i + 1, info.start, info.size, info.lastAddress)));
    }
  }

  /** Track i is the first one of its session. */
  predicate IsFirst(tracks: seq<Info>, i: nat)
    requires i < |tracks|
  {
    forall j :: 0 <= j < i ==> tracks[j].session != tracks[i].session
  }

  predicate IsLast(tracks: seq<Info>, i: nat)
    requires i < |tracks|
  {
    forall j :: i < j < |tracks| ==> tracks[j].session != tracks[i].session
  }

  lemma StepFirst(t: Toc, i: nat, info: Info, sessions: nat, s: nat)
    requires t.prev > 0 ==> i > 0
    ensures var u := Step(t, i, info, sessions);
      if InRange(info, sessions) && info.session == s && t.prev != s then s in u.first && u.first[s] == i + 1
      else (s in u.first <==> s in t.first) && (s in t.first ==> u.first[s] == t.first[s])
  {}

  lemma {:induction false} FirstRecorded(tracks: seq<Info>, sessions: nat, n: nat, i: nat)
    requires i < n <= |tracks| && NeverFalls(tracks, sessions, n) && InRange(tracks[i], sessions) && IsFirst(tracks, i)
    ensures var t, s := Composed(tracks, sessions, n), tracks[i].session; s in t.first && t.first[s] == i + 1
  {
    hide Step, Increasing;
    var t, s := Composed(tracks, sessions, n - 1), tracks[i].session;
    StepFirst(t, n - 1, tracks[n - 1], sessions, s);
    PrevIsSession(tracks, sessions, n - 1);
    if i < n - 1 {
      FirstRecorded(tracks, sessions, n - 1, i);
      SlotsIncrease(tracks, sessions, n - 1);
      IncreaseNeverFalls(tracks, sessions, n - 1);
    }
  }

  lemma {:induction false} LastOfIs(tracks: seq<Info>, n: nat, i: nat)
    requires i < n <= |tracks| && forall j :: i < j < n ==> tracks[j].session != tracks[i].session
    ensures LastOf(tracks, n, tracks[i].session) == i
  {
    if i < n - 1 {
      LastOfIs(tracks, n - 1, i);
    }
  }

  /** An entry which has been written to a place of its own is to be found there. */
  lemma WrittenIsThere(n: nat, writes: seq<Write>, w: Write)
    requires Below(writes, n) && Distinct(writes) && w in writes
    ensures w.slot < n && Applied(n, writes)[w.slot] == w.entry
  {
    hide Applied;
    AllAreThere(n, writes);
    var k :| 0 <= k < |writes| && writes[k] == w;
  }

  /** If no session number falls, then the table tells session, number, start, size and end of each track. */
  lemma TracksAreTold(tracks: seq<Info>, sessions: nat, i: nat)
    requires NeverFalls(tracks, sessions, |tracks|) && i < |tracks| && 1 <= tracks[i].session <= sessions
    ensures var t, n, info := Complete(tracks, sessions), |tracks| + sessions, tracks[i];
      && Below(t.writes, n)
      && Applied(n, t.writes)[i + info.session - 1]
           == Entry(info.session, i + 1, info.start, info.size, info.lastAddress)
      && (IsFirst(tracks, i) ==> info.session in t.first && t.first[info.session] == i + 1)
      && (IsLast(tracks, i) ==> info.session in t.last && t.last[info.session] == i + 1)
  {
    hide Applied, NeverFalls, Below, Step;
    var info := tracks[i];
    PlacesAreDistinct(tracks, sessions);
    TrackIsWritten(tracks, sessions, |tracks|, i);
    WrittenIsThere(|tracks| + sessions, Complete(tracks, sessions).writes,
                   Write(i + info.session - 1, Entry(info.session, i + 1, info.start, info.size, info.lastAddress)));
    if IsFirst(tracks, i) {
      FirstRecorded(tracks, sessions, |tracks|, i);
    }
    if IsLast(tracks, i) {
      LastOfIs(tracks, |tracks|, i);
      LeadoutFollowsLastTrack(tracks, sessions, info.session);
    }
  }

  /** The leadout of a session is to be found, too. It begins where the last track ends. */
  lemma LeadoutIsTold(tracks: seq<Info>, sessions: nat, i: nat)
    requires NeverFalls(tracks, sessions, |tracks|) && i < |tracks| && 1 <= tracks[i].session <= sessions
    requires IsLast(tracks, i)
    ensures var t, n, s, end := Complete(tracks, sessions), |tracks| + sessions, tracks[i].session, EndOf(tracks[i]);
      && Below(t.writes, n) && s in t.leadout && t.leadout[s] < n
      && Applied(n, t.writes)[t.leadout[s]] == Entry(s, 0xA2, end, 0, ToInt32(end - 1))
  {
    hide Applied, NeverFalls, Below, Step, Complete;
    var t, s := Complete(tracks, sessions), tracks[i].session;
    PlacesAreDistinct(tracks, sessions);
    LastOfIs(tracks, |tracks|, i);
    LeadoutFollowsLastTrack(tracks, sessions, s);
    var end := EndOf(tracks[i]);
    WrittenIsThere(|tracks| + sessions, t.writes, Write(t.leadout[s], Entry(s, LEADOUT, end, 0, ToInt32(end - 1))));
  }

  // ---------- the table in memory

  lemma AppliedNext(n: nat, writes: seq<Write>, w: Write)
    requires Below(writes, n) && w.slot < n
    ensures Below(writes + [w], n) && Applied(n, writes + [w]) == Applied(n, writes)[w.slot := w.entry]
  {
    assert (writes + [w])[..|writes|] == writes;
  }

  const MAX_TRACKS := 2302

  /** What is known about the medium: the drive status blank, the current profile. */
  datatype Medium = Medium(lastTrack: int, complete: nat, incomplete: nat, blank: bool, profile: int)

  /** The TOC in memory. Arrays with one element per session have index session - 1. */
  class Disc {
    const sessions: nat
    const tocEntry: array<Entry>
    const leadoutEntry: array<int>
    const firstTrack: array<nat>
    const lastTrack: array<nat>

    constructor (entries: nat, sessions: nat)
      ensures this.sessions == sessions == leadoutEntry.Length == firstTrack.Length == lastTrack.Length
      ensures tocEntry[..] == Applied(entries, []) && fresh(tocEntry)
      ensures fresh(leadoutEntry) && fresh(firstTrack) && fresh(lastTrack)
      ensures firstTrack != lastTrack
      ensures forall k :: 0 <= k < sessions ==> leadoutEntry[k] == -1 && lastTrack[k] == 0 && firstTrack[k] == 0
    {
      this.sessions := sessions;
      tocEntry := new Entry[entries](_ => NoEntry);
      leadoutEntry := new int[sessions](_ => -1);
      firstTrack := new nat[sessions](_ => 0);
      lastTrack := new nat[sessions](_ => 0);
      new;
      assert tocEntry[..] == Applied(entries, []);
    }

    ghost predicate Is(t: Toc)
      reads this, tocEntry, leadoutEntry, firstTrack, lastTrack
    {
      && leadoutEntry.Length == firstTrack.Length == lastTrack.Length == sessions && firstTrack != lastTrack
      && Below(t.writes, tocEntry.Length) && tocEntry[..] == Applied(tocEntry.Length, t.writes)
      && (forall s: nat :: 1 <= s <= sessions ==>
            && leadoutEntry[s - 1] == (if s in t.leadout then t.leadout[s] else -1)
            && firstTrack[s - 1] == (if s in t.first then t.first[s] else 0)
            && lastTrack[s - 1] == (if s in t.last then t.last[s] else 0))
    }

    method WriteLeadout(prev: nat, start: int, size: int, i: nat, ghost t: Toc) returns (lba: int)
      requires i > 0 && 1 <= prev <= sessions && t.prev == prev && t.start == start && t.size == size
      requires Is(t) && i - 1 + prev < tocEntry.Length
      modifies tocEntry, leadoutEntry
      ensures Is(WithLeadout(t, i)) && lba == ToInt32(start + size)
    {
      hide Applied, Below, ToInt32;
      lba := ToInt32(start + size);
      var slot := i - 1 + prev;
      var entry := Entry(prev, LEADOUT, lba, 0, ToInt32(lba - 1));
      AppliedNext(tocEntry.Length, t.writes, Write(slot, entry));
      tocEntry[slot] := entry;
      leadoutEntry[prev - 1] := slot;
    }

    method WriteTrack(prev: nat, i: nat, info: Info, ghost t: Toc)
      requires 1 <= info.session <= sessions && t.prev == prev
      requires Is(t) && i + info.session - 1 < tocEntry.Length
      modifies tocEntry, firstTrack, lastTrack
      ensures Is(WithTrack(t, i, info))
    {
      hide Applied, Below;
      var s := info.session;
      var entry := Entry(s, i + 1, info.start, info.size, info.lastAddress);
      AppliedNext(tocEntry.Length, t.writes, Write(i + s - 1, entry));
      tocEntry[i + s - 1] := entry;
      if prev != s {
        firstTrack[s - 1] := i + 1;
      }
      lastTrack[s - 1] := i + 1;
    }
  }

  /** The entry of each listed track is at its place. First and last track number and the leadout of each session,
      which begins at the end of its last track, are recorded. */
  ghost predicate Tells(d: Disc, tracks: seq<Info>)
    reads d, d.tocEntry, d.leadoutEntry, d.firstTrack, d.lastTrack
  {
    && d.leadoutEntry.Length == d.firstTrack.Length == d.lastTrack.Length == d.sessions
    && forall i :: 0 <= i < |tracks| && 1 <= tracks[i].session <= d.sessions ==> TellsTrack(d, tracks, i)
  }

  ghost predicate TellsTrack(d: Disc, tracks: seq<Info>, i: nat)
    requires i < |tracks| && 1 <= tracks[i].session <= d.sessions
    requires d.leadoutEntry.Length == d.firstTrack.Length == d.lastTrack.Length == d.sessions
    reads d, d.tocEntry, d.leadoutEntry, d.firstTrack, d.lastTrack
  {
    var info, s := tracks[i], tracks[i].session;
    && i + s - 1 < d.tocEntry.Length
    && d.tocEntry[i + s - 1] == Entry(s, i + 1, info.start, info.size, info.lastAddress)
    && (IsFirst(tracks, i) ==> d.firstTrack[s - 1] == i + 1)
    && (IsLast(tracks, i) ==>
          && d.lastTrack[s - 1] == i + 1 && 0 <= d.leadoutEntry[s - 1] < d.tocEntry.Length
          && var end := ToInt32(info.start + info.size);
             d.tocEntry[d.leadoutEntry[s - 1]] == Entry(s, 0xA2, end, 0, ToInt32(end - 1)))
  }

  lemma TableTells(d: Disc, tracks: seq<Info>)
    requires d.tocEntry.Length == |tracks| + d.sessions && d.Is(Complete(tracks, d.sessions))
    requires NeverFalls(tracks, d.sessions, |tracks|)
    ensures Tells(d, tracks)
  {
    hide Applied, NeverFalls, Below, Complete, IsFirst, IsLast;
    forall i | 0 <= i < |tracks| && 1 <= tracks[i].session <= d.sessions
      ensures TellsTrack(d, tracks, i)
    {
      TracksAreTold(tracks, d.sessions, i);
      if IsLast(tracks, i) {
        LeadoutIsTold(tracks, d.sessions, i);
      }
    }
  }

  /** The loop over the tracks. If there are fewer than lastTrack, then the drive refuses to tell about the next one,
      with return value "failure". */
  method FillToc(d: Disc, lastTrack: nat, tracks: seq<Info>, failure: int) returns (ret: int)
    requires |tracks| <= lastTrack && d.tocEntry.Length == lastTrack + d.sessions
    requires d.Is(Composed(tracks, d.sessions, 0))
    modifies d.tocEntry, d.leadoutEntry, d.firstTrack, d.lastTrack
    ensures if |tracks| < lastTrack then ret == failure && d.Is(Composed(tracks, d.sessions, |tracks|))
            else ret == 1 && d.Is(Complete(tracks, d.sessions))
    ensures |tracks| == lastTrack && NeverFalls(tracks, d.sessions, |tracks|) ==> Tells(d, tracks)
  {
    hide NeverFalls, Tells, WithLeadout, WithTrack, Applied, Below;
    var start, size, prev := 0, 0, 0;
    ghost var t := Composed(tracks, d.sessions, 0);
    var i := 0;
    while i < lastTrack
      invariant i <= |tracks| && t == Composed(tracks, d.sessions, i) && d.Is(t)
      invariant t.prev == prev && t.start == start && t.size == size
    {
      hide Disc.Is;
      if i >= |tracks| {
        return failure;
      }
      var info := tracks[i];
      if info.session > 0 {
        if info.session != prev && prev > 0 {
          start := d.WriteLeadout(prev, start, size, i, t);
          LeadoutFields(t, i);
          size, t := 0, WithLeadout(t, i);
        }
        if info.session <= d.sessions {
          d.WriteTrack(prev, i, info, t);
          TrackFields(t, i, info);
          start, size, prev, t := info.start, info.size, info.session, WithTrack(t, i, info);
        }
      }
      i := i + 1;
    }
    if 0 < prev <= d.sessions {
      var _ := d.WriteLeadout(prev, start, size, |tracks|, t);
    }
    if NeverFalls(tracks, d.sessions, |tracks|) {
      TableTells(d, tracks);
    }
    ret := 1;
  }

  lemma LeadoutFields(t: Toc, i: nat)
    requires i > 0
    ensures var u := WithLeadout(t, i); u.prev == t.prev && u.start == ToInt32(t.start + t.size) && u.size == 0
  {}

  lemma TrackFields(t: Toc, i: nat, info: Info)
    requires info.session > 0
    ensures var u := WithTrack(t, i, info); u.prev == info.session && u.start == info.start && u.size == info.size
  {}

  /** mmc_fake_toc with the replies of the drive for the tracks up to a failure. fmt0Ret and fmt0Disc are what
      mmc_read_toc_fmt0 returns and composes. */
  method FakeToc(m: Medium, tracks: seq<Info>, failure: int, fmt0Ret: int, fmt0Disc: Disc?)
    returns (ret: int, disc: Disc?)
    requires m.lastTrack >= 0 ==> |tracks| <= m.lastTrack
    ensures if m.lastTrack <= 0 || m.complete + m.incomplete == 0 || m.blank then ret == 2 && disc == null
            else if m.lastTrack > 2302 then ret == 0 && disc == null
            else if m.profile == 0x10 && m.lastTrack <= 1 then ret == fmt0Ret && disc == fmt0Disc
            else
              && disc != null && disc.sessions == m.complete + m.incomplete
              && disc.tocEntry.Length == m.lastTrack + disc.sessions
              && if |tracks| < m.lastTrack then ret == failure && disc.Is(Composed(tracks, disc.sessions, |tracks|))
                 else
                   && ret == 1 && disc.Is(Complete(tracks, disc.sessions))
                   && (NeverFalls(tracks, disc.sessions, |tracks|) ==> Tells(disc, tracks))
  {
    hide NeverFalls, Tells;
    if m.lastTrack <= 0 || m.complete + m.incomplete == 0 || m.blank {
      return 2, null;
    }
    if m.lastTrack > MAX_TRACKS {
      return 0, null;
    }
    if m.profile == 0x10 && m.lastTrack <= 1 {
      return fmt0Ret, fmt0Disc;
    }
    var sessions := m.complete + m.incomplete;
    disc := new Disc(m.lastTrack + sessions, sessions);
    ret := FillToc(disc, m.lastTrack, tracks, failure);
  }
}
