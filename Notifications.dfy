/**
 * The note-to-notification derivation: which lines of a note become
 * notifications, in which order they are posted, which id each gets, and
 * which stale ids are cancelled.
 */
module Notifications {
  import opened LineScanner

  /** A line that becomes a notification: longer than two characters and starting with "--". */
  predicate IsMarkerLine(line: string) {
    |line| > 2 && line[0] == '-' && line[1] == '-'
  }

  /** The message of each marker line of ls, top to bottom, with its "--" removed. */
  function Markers(ls: seq<string>): (ms: seq<string>)
    ensures |ms| <= |ls|
  {
    if ls == [] then []
    else (if IsMarkerLine(ls[0]) then [ls[0][2..]] else []) + Markers(ls[1..])
  }

  /** The messages of a note in the order its lines are scanned. */
  function Derive(text: string): seq<string> {
    Markers(Lines(text))
  }

  /** s back to front; defined from the end, the way a stack is popped. */
  function Reverse<T>(s: seq<T>): (r: seq<T>)
    ensures |r| == |s|
  {
    if s == [] then [] else [s[|s| - 1]] + Reverse(s[..|s| - 1])
  }

  /** The messages in the order they are posted: the last marker line first. */
  function Delivered(text: string): seq<string> {
    Reverse(Derive(text))
  }

  /** The ids lo, lo + 1, ..., hi. */
  function Ids(lo: int, hi: int): (r: set<int>)
    ensures forall id :: id in r <==> lo <= id <= hi
    decreases hi - lo
  {
    if lo > hi then {} else Ids(lo, hi - 1) + {hi}
  }

  /** The notifications on show after ms was posted with ids 1, 2, ...: id i shows ms[i - 1]. */
  function IdMap(ms: seq<string>): (m: map<int, string>)
    ensures m.Keys == Ids(1, |ms|)
  {
    map id | id in Ids(1, |ms|) :: ms[id - 1]
  }

  /** A call into the platform's notification manager. */
  datatype Call = Notified(id: int, message: string) | Cancelled(id: int)

  /** One notify per message, with ids 1, 2, ... in order. */
  function NotifyCalls(ms: seq<string>): (cs: seq<Call>)
    ensures |cs| == |ms|
  {
    seq(|ms|, k requires 0 <= k < |ms| => Notified(k + 1, ms[k]))
  }

  /** One cancel per id lo, lo + 1, ..., hi; none when lo > hi. */
  function CancelCalls(lo: int, hi: int): (cs: seq<Call>)
    ensures |cs| == if lo <= hi then hi - lo + 1 else 0
  {
    if lo > hi then [] else seq(hi - lo + 1, k => Cancelled(lo + k))
  }

  /**
   * The calls one derivation makes when its messages, in scan order, are ms
   * and oldCount notifications were counted before it: ms posted last first,
   * then the ids above |ms| up to oldCount cancelled.
   */
  function Refresh(ms: seq<string>, oldCount: int): seq<Call> {
    NotifyCalls(Reverse(ms)) + CancelCalls(|ms| + 1, oldCount)
  }

  /** k rounds of calls: first in the first round, again in every later one. */
  function Repeat(first: seq<Call>, again: seq<Call>, k: nat): seq<Call>
    decreases k
  {
    if k == 0 then [] else Repeat(first, again, k - 1) + (if k == 1 then first else again)
  }

  /**
   * The calls made when k text watchers each derive the same note, with
   * messages ms, one after the other: the first finds oldCount, each later
   * one the count its predecessor left.
   */
  function RepeatRefresh(ms: seq<string>, oldCount: int, k: nat): seq<Call> {
    Repeat(Refresh(ms, oldCount), Refresh(ms, |ms|), k)
  }

  /** The effect of one call on the notifications on show. */
  function Perform(active: map<int, string>, c: Call): map<int, string> {
    match c
    case Notified(id, message) => active[id := message]
    case Cancelled(id) => active - {id}
  }

  /** The effect of a sequence of calls, performed in order. */
  function Apply(active: map<int, string>, cs: seq<Call>): map<int, string>
    decreases |cs|
  {
    if cs == [] then active else Perform(Apply(active, cs[..|cs| - 1]), cs[|cs| - 1])
  }

  // ---------------------------------------------------------------------
  // Which lines become messages

  lemma {:induction false} MarkersAppend(a: seq<string>, b: seq<string>)
    ensures Markers(a + b) == Markers(a) + Markers(b)
  {
    if a != [] {
      assert (a + b)[1..] == a[1..] + b;
      MarkersAppend(a[1..], b);
    } else {
      assert a + b == b;
    }
  }

  /** Line k of ls is a marker line whose message is m. */
  predicate MessageOf(ls: seq<string>, k: int, m: string) {
    0 <= k < |ls| && IsMarkerLine(ls[k]) && m == ls[k][2..]
  }

  /** A message comes from exactly a marker line, and is that line minus its first two characters. */
  lemma {:induction false} MarkersExactly(ls: seq<string>, m: string)
    ensures m in Markers(ls) <==> exists k :: MessageOf(ls, k, m)
  {
    if ls != [] {
      MarkersExactly(ls[1..], m);
      var head := if IsMarkerLine(ls[0]) then [ls[0][2..]] else [];
      assert Markers(ls) == head + Markers(ls[1..]);
      if m in head {
        assert MessageOf(ls, 0, m);
      } else if m in Markers(ls[1..]) {
        var k :| MessageOf(ls[1..], k, m);
        assert ls[1..][k] == ls[k + 1];
        assert MessageOf(ls, k + 1, m);
      }
      if exists k :: MessageOf(ls, k, m) {
        var k :| MessageOf(ls, k, m);
        if k == 0 {
          assert m in head;
        } else {
          assert ls[1..][k - 1] == ls[k];
          assert MessageOf(ls[1..], k - 1, m);
        }
      }
    }
  }

  /**
   * The notifications of a note: one for exactly each line of length > 2 that
   * starts with "--", carrying the rest of that line, never empty.
   */
  lemma DeriveExactly(text: string, m: string)
    ensures m in Derive(text) <==> exists k :: MessageOf(Lines(text), k, m)
    ensures m in Derive(text) ==> m != ""
  {
    MarkersExactly(Lines(text), m);
    assert (m in Derive(text)) == (m in Markers(Lines(text)));
    assert (m in Markers(Lines(text))) <==> exists k :: MessageOf(Lines(text), k, m);
  }

  /** The indices of the marker lines of ls, top to bottom. */
  function MarkerIndices(ls: seq<string>): seq<nat>
    decreases |ls|
  {
    if ls == [] then []
    else MarkerIndices(ls[..|ls| - 1]) + (if IsMarkerLine(ls[|ls| - 1]) then [|ls| - 1] else [])
  }

  /** The set of indices of the marker lines of ls. */
  function MarkerLines(ls: seq<string>): set<int> {
    set k | 0 <= k < |ls| && IsMarkerLine(ls[k])
  }

  /** Markers of ls is Markers of all lines but the last, then the message of the last line, if any. */
  lemma MarkersSnoc(ls: seq<string>)
    requires ls != []
    ensures Markers(ls) == Markers(ls[..|ls| - 1]) +
      (if IsMarkerLine(ls[|ls| - 1]) then [ls[|ls| - 1][2..]] else [])
  {
    var n := |ls| - 1;
    assert ls == ls[..n] + [ls[n]];
    MarkersAppend(ls[..n], [ls[n]]);
    DeriveOneLine(ls[n], []);
    assert [ls[n]] + [] == [ls[n]];
  }

  /**
   * One message per marker line, in order: message j comes from the j-th
   * marker line counted from the top, the indices of those lines increase,
   * and every marker line is among them.
   */
  lemma {:induction false} MarkersIndexed(ls: seq<string>)
    ensures |Markers(ls)| == |MarkerIndices(ls)|
    ensures forall j :: 0 <= j < |MarkerIndices(ls)| ==>
      MarkerIndices(ls)[j] < |ls| && IsMarkerLine(ls[MarkerIndices(ls)[j]]) &&
      Markers(ls)[j] == ls[MarkerIndices(ls)[j]][2..]
    ensures forall i, j :: 0 <= i < j < |MarkerIndices(ls)| ==> MarkerIndices(ls)[i] < MarkerIndices(ls)[j]
    ensures forall k :: 0 <= k < |ls| && IsMarkerLine(ls[k]) ==> k in MarkerIndices(ls)
    decreases |ls|
  {
    if ls != [] {
      var n := |ls| - 1;
      var init := ls[..n];
      MarkersIndexed(init);
      MarkersSnoc(ls);
      var idx0, ms0 := MarkerIndices(init), Markers(init);
      var idx, ms := MarkerIndices(ls), Markers(ls);
      assert idx == idx0 + (if IsMarkerLine(ls[n]) then [n] else []);
      assert ms == ms0 + (if IsMarkerLine(ls[n]) then [ls[n][2..]] else []);
      forall j | 0 <= j < |idx|
        ensures idx[j] < |ls| && IsMarkerLine(ls[idx[j]]) && ms[j] == ls[idx[j]][2..]
      {
        if j < |idx0| {
          assert idx[j] == idx0[j] && ms[j] == ms0[j] && init[idx0[j]] == ls[idx0[j]];
        }
      }
      forall i, j | 0 <= i < j < |idx| ensures idx[i] < idx[j] {
        if j < |idx0| {
          assert idx[i] == idx0[i] && idx[j] == idx0[j];
        } else {
          assert idx[i] == idx0[i] && idx0[i] < |init|;
        }
      }
      forall k | 0 <= k < |ls| && IsMarkerLine(ls[k]) ensures k in idx {
        if k < n {
          assert init[k] == ls[k];
          assert k in idx0;
        } else {
          assert idx[|idx| - 1] == n;
        }
      }
    }
  }

  /** There are as many messages as marker lines. */
  lemma {:induction false} MarkersCount(ls: seq<string>)
    ensures |Markers(ls)| == |MarkerLines(ls)|
    decreases |ls|
  {
    if ls != [] {
      var n := |ls| - 1;
      var init := ls[..n];
      MarkersCount(init);
      MarkersSnoc(ls);
      assert forall k :: 0 <= k < n ==> init[k] == ls[k];
      if IsMarkerLine(ls[n]) {
        assert MarkerLines(ls) == MarkerLines(init) + {n};
        assert n !in MarkerLines(init);
      } else {
        assert MarkerLines(ls) == MarkerLines(init);
      }
    }
  }

  /**
   * The count a derivation leaves is the number of marker lines of the note,
   * and its messages are theirs, top to bottom.
   */
  lemma DeriveCount(text: string)
    ensures |Derive(text)| == |MarkerLines(Lines(text))| == |MarkerIndices(Lines(text))|
    ensures forall j :: 0 <= j < |Derive(text)| ==>
      MarkerIndices(Lines(text))[j] < |Lines(text)| &&
      IsMarkerLine(Lines(text)[MarkerIndices(Lines(text))[j]]) &&
      Derive(text)[j] == Lines(text)[MarkerIndices(Lines(text))[j]][2..]
  {
    MarkersCount(Lines(text));
    MarkersIndexed(Lines(text));
  }

  /** The first line read contributes its message, if it is a marker line, ahead of those of the lines after it. */
  lemma DeriveOneLine(line: string, rest: seq<string>)
    ensures Markers([line] + rest) == (if IsMarkerLine(line) then [line[2..]] else []) + Markers(rest)
  {
    assert ([line] + rest)[1..] == rest;
  }

  // ---------------------------------------------------------------------
  // Reverse order and ids

  lemma {:induction false} ReverseAt<T>(s: seq<T>, k: nat)
    requires k < |s|
    ensures Reverse(s)[k] == s[|s| - 1 - k]
  {
    if k > 0 {
      ReverseAt(s[..|s| - 1], k - 1);
    }
  }

  /**
   * Id i is posted with the i-th marker line counted from the bottom: id 1
   * carries the last marker line of the note, id n the first.
   */
  lemma DeliveredAt(text: string, id: int)
    requires 1 <= id <= |Derive(text)|
    ensures Delivered(text)[id - 1] == Derive(text)[|Derive(text)| - id]
    ensures IdMap(Delivered(text))[id] == Derive(text)[|Derive(text)| - id]
  {
    ReverseAt(Derive(text), id - 1);
  }

  /** The example of the note "hello / --first / world / --second". */
  lemma DeriveExample()
    ensures Derive("hello\n--first\nworld\n--second") == ["first", "second"]
    ensures Delivered("hello\n--first\nworld\n--second") == ["second", "first"]
  {
    ExampleLines();
    ExampleMarkers();
    var d := ["first", "second"];
    assert Reverse(d) == [d[1]] + Reverse(d[..1]);
    assert Reverse(d[..1]) == [d[0]] + Reverse([]);
  }

  lemma ExampleLines()
    ensures Lines("hello\n--first\nworld\n--second") == ["hello", "--first", "world", "--second"]
  {
    var ls := ["hello", "--first", "world", "--second"];
    ExampleLinesPlain();
    LinesOfJoin(ls);
    ExampleJoin();
  }

  lemma ExampleLinesPlain()
    ensures forall k :: 0 <= k < 4 ==> NoSeparator(["hello", "--first", "world", "--second"][k])
  {
    var ls := ["hello", "--first", "world", "--second"];
    assert NoSeparator(ls[0]) && NoSeparator(ls[1]) && NoSeparator(ls[2]) && NoSeparator(ls[3]);
  }

  lemma ExampleJoin()
    ensures JoinLines(["hello", "--first", "world", "--second"]) == "hello\n--first\nworld\n--second"
  {
    var ls := ["hello", "--first", "world", "--second"];
    assert ls[3..] == ["--second"];
    assert JoinLines(ls[3..]) == "--second";
    assert JoinLines(ls[2..]) == "world" + "\n" + "--second";
    assert JoinLines(ls[1..]) == "--first" + "\n" + ("world" + "\n" + "--second");
    assert JoinLines(ls) == "hello" + "\n" + ("--first" + "\n" + ("world" + "\n" + "--second"));
    assert "hello" + "\n" + ("--first" + "\n" + ("world" + "\n" + "--second")) == "hello\n--first\nworld\n--second";
  }

  lemma ExampleMarkers()
    ensures Markers(["hello", "--first", "world", "--second"]) == ["first", "second"]
  {
    assert "--first"[2..] == "first";
    assert "--second"[2..] == "second";
    DeriveOneLine("--second", []);
    DeriveOneLine("world", ["--second"]);
    DeriveOneLine("--first", ["world", "--second"]);
    DeriveOneLine("hello", ["--first", "world", "--second"]);
    assert ["hello"] + ["--first", "world", "--second"] == ["hello", "--first", "world", "--second"];
  }

  // ---------------------------------------------------------------------
  // What the calls of one derivation do

  lemma NotifyCallsSnoc(ms: seq<string>, m: string)
    ensures NotifyCalls(ms + [m]) == NotifyCalls(ms) + [Notified(|ms| + 1, m)]
  {
  }

  lemma CancelCallsSnoc(lo: int, hi: int)
    requires lo <= hi + 1
    ensures CancelCalls(lo, hi + 1) == CancelCalls(lo, hi) + [Cancelled(hi + 1)]
  {
  }

  lemma ApplySnoc(active: map<int, string>, cs: seq<Call>, c: Call)
    ensures Apply(active, cs + [c]) == Perform(Apply(active, cs), c)
  {
    assert (cs + [c])[..|cs|] == cs;
  }

  lemma {:induction false} ApplyAppend(active: map<int, string>, a: seq<Call>, b: seq<Call>)
    ensures Apply(active, a + b) == Apply(Apply(active, a), b)
    decreases |b|
  {
    if b == [] {
      assert a + b == a;
    } else {
      var b' := b[..|b| - 1];
      assert a + b == (a + b') + [b[|b| - 1]];
      ApplySnoc(active, a + b', b[|b| - 1]);
      ApplyAppend(active, a, b');
      ApplySnoc(Apply(active, a), b', b[|b| - 1]);
      assert b == b' + [b[|b| - 1]];
    }
  }

  lemma IdMapSnoc(active: map<int, string>, ms: seq<string>, m: string)
    ensures (active + IdMap(ms))[|ms| + 1 := m] == active + IdMap(ms + [m])
  {
    var bigger := IdMap(ms + [m]);
    assert bigger.Keys == IdMap(ms)[|ms| + 1 := m].Keys;
    assert bigger == IdMap(ms)[|ms| + 1 := m];
    UnionUpdate(active, IdMap(ms), |ms| + 1, m);
  }

  lemma UnionUpdate(a: map<int, string>, b: map<int, string>, k: int, v: string)
    ensures (a + b)[k := v] == a + b[k := v]
  {
  }

  /** Posting ms with ids 1..|ms| overwrites those ids and keeps the others. */
  lemma {:induction false} ApplyNotifyCalls(active: map<int, string>, ms: seq<string>)
    ensures Apply(active, NotifyCalls(ms)) == active + IdMap(ms)
    decreases |ms|
  {
    if ms == [] {
      assert active + IdMap(ms) == active;
    } else {
      var ms', m := ms[..|ms| - 1], ms[|ms| - 1];
      assert ms == ms' + [m];
      NotifyCallsSnoc(ms', m);
      ApplySnoc(active, NotifyCalls(ms'), Notified(|ms|, m));
      ApplyNotifyCalls(active, ms');
      IdMapSnoc(active, ms', m);
    }
  }

  /** Cancelling lo..hi removes exactly those ids. */
  lemma {:induction false} ApplyCancelCalls(active: map<int, string>, lo: int, hi: int)
    ensures Apply(active, CancelCalls(lo, hi)) == active - Ids(lo, hi)
    decreases hi - lo
  {
    if lo > hi {
      assert Ids(lo, hi) == {};
      assert active - {} == active;
    } else {
      CancelCallsSnoc(lo, hi - 1);
      ApplySnoc(active, CancelCalls(lo, hi - 1), Cancelled(hi));
      ApplyCancelCalls(active, lo, hi - 1);
      assert Ids(lo, hi) == Ids(lo, hi - 1) + {hi};
      assert (active - Ids(lo, hi - 1)) - {hi} == active - Ids(lo, hi);
    }
  }

  /**
   * Whatever notifications a derivation of count oldCount left on show, the
   * calls of a new derivation leave on show exactly the new messages, id i
   * with the i-th one posted.
   */
  lemma RefreshShows(before: seq<string>, ms: seq<string>)
    ensures Apply(IdMap(before), Refresh(ms, |before|)) == IdMap(Reverse(ms))
  {
    var d := Reverse(ms);
    ApplyAppend(IdMap(before), NotifyCalls(d), CancelCalls(|ms| + 1, |before|));
    ApplyNotifyCalls(IdMap(before), d);
    ApplyCancelCalls(IdMap(before) + IdMap(d), |ms| + 1, |before|);
    StaleRemoved(before, d);
  }

  lemma StaleRemoved(before: seq<string>, d: seq<string>)
    ensures (IdMap(before) + IdMap(d)) - Ids(|d| + 1, |before|) == IdMap(d)
  {
    var shown := (IdMap(before) + IdMap(d)) - Ids(|d| + 1, |before|);
    assert shown.Keys == IdMap(d).Keys;
    forall id | id in shown.Keys ensures shown[id] == IdMap(d)[id] {}
  }

  /** Stale cleanup: a derivation cancels exactly the ids above the new count up to the old count. */
  lemma RefreshCancels(ms: seq<string>, oldCount: int, id: int)
    ensures Cancelled(id) in Refresh(ms, oldCount) <==> |ms| < id <= oldCount
  {
    var cs := CancelCalls(|ms| + 1, oldCount);
    if |ms| < id <= oldCount {
      assert cs[id - |ms| - 1] == Cancelled(id);
    }
  }

  /** No cancel happens when the new count is at least the old one. */
  lemma RefreshCancelsNothing(ms: seq<string>, oldCount: int)
    requires oldCount <= |ms|
    ensures Refresh(ms, oldCount) == NotifyCalls(Reverse(ms))
  {
    assert CancelCalls(|ms| + 1, oldCount) == [];
  }

  /**
   * The notifies of a derivation: id i, for 1 <= i <= |ms|, is posted once,
   * with the i-th message counted from the bottom of the note.
   */
  lemma RefreshNotifies(ms: seq<string>, oldCount: int, id: int, m: string)
    ensures Notified(id, m) in Refresh(ms, oldCount) <==> 1 <= id <= |ms| && m == ms[|ms| - id]
  {
    var r := Refresh(ms, oldCount);
    if 1 <= id <= |ms| && m == ms[|ms| - id] {
      ReverseAt(ms, id - 1);
      assert r[id - 1] == Notified(id, m);
    }
    if Notified(id, m) in r {
      var k :| 0 <= k < |r| && r[k] == Notified(id, m);
      assert k < |ms|;
      ReverseAt(ms, k);
    }
  }

  /**
   * Idempotence: deriving the same messages again cancels nothing and
   * leaves the same notifications on show.
   */
  lemma RederiveUnchanged(ms: seq<string>)
    ensures forall id :: Cancelled(id) !in Refresh(ms, |ms|)
    ensures Apply(IdMap(Reverse(ms)), Refresh(ms, |ms|)) == IdMap(Reverse(ms))
  {
    RefreshCancelsNothing(ms, |ms|);
    RefreshShows(Reverse(ms), ms);
  }

  /** k rounds with a distinct first round are that round followed by k - 1 rounds of the other. */
  lemma {:induction false} RepeatFirst(first: seq<Call>, again: seq<Call>, k: nat)
    requires k >= 1
    ensures Repeat(first, again, k) == first + Repeat(again, again, k - 1)
  {
    if k == 1 {
      assert Repeat(first, again, 1) == first;
      assert Repeat(again, again, 0) == [];
    } else {
      RepeatFirst(first, again, k - 1);
      assert Repeat(again, again, k - 1) == Repeat(again, again, k - 2) + again;
    }
  }

  /**
   * Of k watchers deriving the same note, the first cancels from the old
   * count and the other k - 1 each find the count of the note itself.
   */
  lemma RepeatRefreshFirst(ms: seq<string>, oldCount: int, k: nat)
    requires k >= 1
    ensures RepeatRefresh(ms, oldCount, k) == Refresh(ms, oldCount) + RepeatRefresh(ms, |ms|, k - 1)
  {
    RepeatFirst(Refresh(ms, oldCount), Refresh(ms, |ms|), k);
  }

  /**
   * Several text watchers deriving in a row leave what one derivation
   * leaves; only the first can cancel anything.
   */
  lemma {:induction false} RepeatRefreshShows(before: seq<string>, ms: seq<string>, k: nat)
    requires k >= 1
    ensures Apply(IdMap(before), RepeatRefresh(ms, |before|, k)) == IdMap(Reverse(ms))
  {
    var first, again := Refresh(ms, |before|), Refresh(ms, |ms|);
    if k == 1 {
      assert Repeat(first, again, 1) == first;
      RefreshShows(before, ms);
    } else {
      RepeatRefreshShows(before, ms, k - 1);
      ApplyAppend(IdMap(before), Repeat(first, again, k - 1), again);
      RefreshShows(Reverse(ms), ms);
    }
  }

  /** The empty note has no messages; deriving it cancels ids 1..oldCount and posts nothing. */
  lemma RefreshEmpty(oldCount: int)
    ensures Derive("") == [] && Delivered("") == []
    ensures Refresh([], oldCount) == CancelCalls(1, oldCount)
    ensures IdMap([]) == map[]
  {
    assert NotifyCalls([]) == [];
  }

  /** The platform's notification manager, seen as the notifications on show and the calls made to it. */
  class NotificationManager {
    var active: map<int, string>
    var log: seq<Call>

    constructor ()
      ensures active == map[] && log == []
    {
      active := map[];
      log := [];
    }

    /** notify(id, message): post, or replace, notification id. */
    method Notify(id: int, message: string)
      modifies this
      ensures active == old(active)[id := message]
      ensures log == old(log) + [Notified(id, message)]
    {
      active := active[id := message];
      log := log + [Notified(id, message)];
    }

    /** cancel(id): withdraw notification id, if it is on show. */
    method Cancel(id: int)
      modifies this
      ensures active == old(active) - {id}
      ensures log == old(log) + [Cancelled(id)]
    {
      active := active - {id};
      log := log + [Cancelled(id)];
    }
  }
}
