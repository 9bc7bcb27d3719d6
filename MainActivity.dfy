/**
 * The note session of the main activity: the note text and its dirty flag,
 * the persisted note file, the text watchers attached to the editor, the
 * derived notifications, the quintuple-tap counter, the stored clear choice
 * and its confirmation dialog.
 */
module Jot {
  import opened Wrappers
  import opened LineScanner
  import opened Notifications
  import opened QuintupleTap
  import opened ClearChoice

  /** contains: whether c occurs in s, scanning from the front and stopping at the first hit. */
  method Contains(s: string, c: char) returns (found: bool)
    ensures found <==> c in s
  {
    for i := 0 to |s|
      invariant c !in s[..i]
    {
      if s[i] == c {
        return true;
      }
    }
    assert s[..|s|] == s;
    return false;
  }

  /**
   * The first loop of generateNotificationsFromNote: read text with a
   * line scanner and collect the message of every marker line, in order.
   */
  method MarkedMessages(text: string) returns (messages: seq<string>)
    ensures messages == Derive(text)
  {
    messages := [];
    var s := new Scanner(text);
    assert s.Rest() == text;
    assert Derive(text) == messages + Markers(Lines(s.Rest()));
    while s.HasNextLine()
      invariant s.Valid() && s.source == text
      invariant Derive(text) == messages + Markers(Lines(s.Rest()))
      modifies s
      decreases |s.Rest()|
    {
      ghost var before, earlier := Lines(s.Rest()), messages;
      var thisLine := s.NextLine();
      if IsMarkerLine(thisLine) {
        messages := messages + [thisLine[2..]];
      }
      MarkedStep(text, earlier, messages, thisLine, before, Lines(s.Rest()));
    }
    assert Lines(s.Rest()) == [];
    assert messages + [] == messages;
  }

  /** One iteration of MarkedMessages: the line read adds its message, if any, to those collected. */
  lemma MarkedStep(text: string, earlier: seq<string>, messages: seq<string>, line: string,
                   before: seq<string>, after: seq<string>)
    requires before == [line] + after
    requires Derive(text) == earlier + Markers(before)
    requires messages == if IsMarkerLine(line) then earlier + [line[2..]] else earlier
    ensures Derive(text) == messages + Markers(after)
  {
    DeriveOneLine(line, after);
    if !IsMarkerLine(line) {
      assert [] + Markers(after) == Markers(after);
    }
  }

  /** One watcher more: the log grows by one derivation when the inserted text holds a newline. */
  lemma WatcherStep(nl: bool, first: seq<Call>, again: seq<Call>, k: nat, done: seq<Call>,
                    log0: seq<Call>, logk: seq<Call>, log1: seq<Call>)
    requires logk == log0 + (if nl then Repeat(first, again, k) else [])
    requires nl ==> log1 == logk + done && done == (if k == 0 then first else again)
    requires !nl ==> log1 == logk
    ensures log1 == log0 + (if nl then Repeat(first, again, k + 1) else [])
  {
  }

  /** The calls of onResume: those of loading the note, then one derivation from the count loading left. */
  lemma ResumeLog(loaded: bool, nl: bool, k: nat, loadedMs: seq<string>, ms: seq<string>,
                  count0: int, count1: int, log0: seq<Call>, log1: seq<Call>, log2: seq<Call>)
    requires log1 == log0 + (if loaded && nl then RepeatRefresh(loadedMs, count0, k) else [])
    requires count1 == if loaded && nl && k > 0 then |loadedMs| else count0
    requires loaded && nl && k > 0 ==> loadedMs == ms
    requires log2 == log1 + Refresh(ms, count1)
    ensures log2 == log0 + (if loaded && nl then RepeatRefresh(ms, count0, k) else []) +
      Refresh(ms, if loaded && nl && k > 0 then |ms| else count0)
  {
    if loaded && nl && k == 0 {
      assert RepeatRefresh(loadedMs, count0, k) == [] == RepeatRefresh(ms, count0, k);
    }
  }

  /** The posts and the cancels of generateNotificationsFromNote leave the new messages on show. */
  lemma RefreshComposedShows(before: seq<string>, ms: seq<string>, notify: seq<Call>, cancel: seq<Call>,
                             active: map<int, string>)
    requires notify == NotifyCalls(Reverse(ms)) && cancel == CancelCalls(|ms| + 1, |before|)
    requires active == Apply(Apply(IdMap(before), notify), cancel)
    ensures active == IdMap(Reverse(ms))
  {
    ApplyAppend(IdMap(before), notify, cancel);
    RefreshShows(before, ms);
  }

  /** The posts and then the cancels of generateNotificationsFromNote are one Refresh. */
  lemma RefreshComposedLog(ms: seq<string>, posted: seq<string>, oldCount: int, log0: seq<Call>, log1: seq<Call>)
    requires posted == Reverse(ms)
    requires log1 == (log0 + NotifyCalls(posted)) + CancelCalls(|ms| + 1, oldCount)
    ensures log1 == log0 + Refresh(ms, oldCount)
  {
  }

  class MainActivity {
    /** The platform's notification manager. */
    const manager: NotificationManager
    /** The text of the editor. */
    var note: string
    /** Set by every text watcher; cleared when a watcher is attached. */
    var noteChanged: bool
    var tapCounter: int
    /** A decay thread has been started and has not yet reset tapCounter. */
    var decayPending: bool
    var notificationCounter: int
    /** The note file: None when it does not exist. */
    var file: Option<string>
    /** The stored clear choice; a missing entry is UNSET. */
    var pref: int
    /** The "Clear Notes" dialog is on screen. */
    var dialogOpen: bool
    /** How many text watchers are attached to the editor. */
    var listeners: nat
    /** The watcher most recently created is still attached. */
    var latestAttached: bool
    /** The messages of the most recent derivation, in scan order. */
    ghost var derived: seq<string>

    ghost predicate Valid()
      reads this, manager
    {
      && Consistent(Taps(tapCounter, decayPending))
      && (dialogOpen ==> pref == UNSET)
      && (latestAttached ==> listeners > 0)
      && Shown()
    }

    /** The counter and the notifications on show are those of the most recent derivation. */
    ghost predicate Shown()
      reads this, manager
    {
      && notificationCounter == |derived|
      && manager.active == IdMap(Reverse(derived))
    }

    /** Effect of clearNote: empty note, nothing on show, ids 1..old count cancelled. */
    twostate predicate ClearedNote()
      reads this, manager
    {
      && note == "" && derived == [] && notificationCounter == 0
      && manager.active == map[]
      && noteChanged == (old(noteChanged) || listeners > 0)
      && manager.log == old(manager.log) + CancelCalls(1, old(notificationCounter))
    }

    /** The note and the notifications are as they were. */
    twostate predicate NoteUntouched()
      reads this, manager
    {
      && note == old(note) && noteChanged == old(noteChanged)
      && derived == old(derived) && notificationCounter == old(notificationCounter)
      && manager.active == old(manager.active) && manager.log == old(manager.log)
    }

    /** A fresh activity, with the note file and the stored choice that persist from earlier runs. */
    constructor (storedFile: Option<string>, storedPref: int)
      ensures Valid() && fresh(manager)
      ensures note == "" && !noteChanged && tapCounter == 0 && notificationCounter == 0
      ensures file == storedFile && pref == storedPref && !dialogOpen
      ensures listeners == 0 && !latestAttached
      ensures manager.active == map[] && manager.log == []
    {
      manager := new NotificationManager();
      note := "";
      noteChanged := false;
      tapCounter := 0;
      decayPending := false;
      notificationCounter := 0;
      file := storedFile;
      pref := storedPref;
      dialogOpen := false;
      listeners := 0;
      latestAttached := false;
      derived := [];
      RefreshEmpty(0);
    }

    // -------------------------------------------------------------------
    // Notifications

    /** makePushNotification: post message under the next id. */
    method MakePushNotification(message: string)
      modifies this`notificationCounter, manager
      ensures notificationCounter == old(notificationCounter) + 1
      ensures manager.active == old(manager.active)[notificationCounter := message]
      ensures manager.log == old(manager.log) + [Notified(notificationCounter, message)]
    {
      notificationCounter := notificationCounter + 1;
      manager.Notify(notificationCounter, message);
    }

    /**
     * generateNotificationsFromNote: scan text line by line, stack the
     * messages of its marker lines, post them as the stack is emptied (so
     * the last marker line gets id 1), then cancel the ids the previous
     * derivation used beyond the new count.
     */
    method GenerateNotificationsFromNote(text: string)
      requires Shown()
      modifies this`notificationCounter, this`derived, manager
      ensures Shown() && derived == Derive(text)
      ensures manager.log == old(manager.log) + Refresh(derived, old(notificationCounter))
    {
      var oldCount := notificationCounter;
      ghost var before, log0 := Reverse(derived), manager.log;
      notificationCounter := 0;
      var messages := MarkedMessages(text);
      PushAll(messages);
      CancelStale(notificationCounter + 1, oldCount);
      RefreshComposedShows(before, messages, NotifyCalls(Reverse(messages)), CancelCalls(|messages| + 1, oldCount),
        manager.active);
      RefreshComposedLog(messages, Reverse(messages), oldCount, log0, manager.log);
      derived := messages;
    }

    /**
     * The second loop of generateNotificationsFromNote: pop the stacked
     * messages, the top first, posting each under the next id.
     */
    method PushAll(messages: seq<string>)
      requires notificationCounter == 0
      modifies this`notificationCounter, manager
      ensures notificationCounter == |messages|
      ensures manager.log == old(manager.log) + NotifyCalls(Reverse(messages))
      ensures manager.active == Apply(old(manager.active), NotifyCalls(Reverse(messages)))
    {
      ghost var active0, log0 := manager.active, manager.log;
      ghost var d := Reverse(messages);
      assert d[0..] == d;
      var stack := messages;
      while stack != []
        invariant notificationCounter + |stack| == |d|
        invariant 0 <= notificationCounter
        invariant Reverse(stack) == d[notificationCounter..]
        invariant manager.log == log0 + NotifyCalls(d[..notificationCounter])
        invariant manager.active == Apply(active0, NotifyCalls(d[..notificationCounter]))
        modifies this`notificationCounter, manager
        decreases |stack|
      {
        var message := stack[|stack| - 1];
        ghost var k := notificationCounter;
        assert Reverse(stack) == [message] + Reverse(stack[..|stack| - 1]);
        stack := stack[..|stack| - 1];
        assert d[k..][0] == d[k] && d[k..][1..] == d[k + 1..];
        assert d[..k + 1] == d[..k] + [message];
        NotifyCallsSnoc(d[..k], message);
        ApplySnoc(active0, NotifyCalls(d[..k]), Notified(k + 1, message));
        MakePushNotification(message);
      }
      assert d[..notificationCounter] == d;
    }

    /** The third loop of generateNotificationsFromNote: cancel the ids lo..hi in turn. */
    method CancelStale(lo: int, hi: int)
      modifies manager
      ensures manager.log == old(manager.log) + CancelCalls(lo, hi)
      ensures manager.active == Apply(old(manager.active), CancelCalls(lo, hi))
    {
      ghost var active0, log0 := manager.active, manager.log;
      assert CancelCalls(lo, lo - 1) == [];
      assert log0 + [] == log0 && Apply(active0, []) == active0;
      var i := lo;
      while i <= hi
        invariant lo <= i && (i <= hi + 1 || i == lo)
        invariant manager.log == log0 + CancelCalls(lo, i - 1)
        invariant manager.active == Apply(active0, CancelCalls(lo, i - 1))
        modifies manager
      {
        CancelCallsSnoc(lo, i - 1);
        ApplySnoc(active0, CancelCalls(lo, i - 1), Cancelled(i));
        manager.Cancel(i);
        i := i + 1;
      }
      assert CancelCalls(lo, i - 1) == CancelCalls(lo, hi);
    }

    // -------------------------------------------------------------------
    // Text changes and text watchers

    /**
     * onTextChanged of one text watcher, for the count characters inserted
     * at start: mark the note changed, and derive again if a newline was
     * among them.
     */
    method OnTextChanged(start: int, count: int)
      requires Shown() && 0 <= start && 0 <= count && start + count <= |note|
      modifies this`noteChanged, this`notificationCounter, this`derived, manager
      ensures Shown() && noteChanged
      ensures '\n' in note[start..start + count] ==>
        derived == Derive(note) && manager.log == old(manager.log) + Refresh(derived, old(notificationCounter))
      ensures '\n' !in note[start..start + count] ==>
        derived == old(derived) && notificationCounter == old(notificationCounter) &&
        manager.log == old(manager.log) && manager.active == old(manager.active)
    {
      noteChanged := true;
      var newline := Contains(note[start..start + count], '\n');
      if newline {
        GenerateNotificationsFromNote(note);
      }
    }

    /**
     * The editor replaces the before characters at start by inserted and
     * then calls onTextChanged of every attached text watcher in turn; a
     * user's edit and setText both come here.
     */
    method ReplaceText(start: int, before: int, inserted: string)
      requires Shown() && 0 <= start && 0 <= before && start + before <= |note|
      modifies this`note, this`noteChanged, this`notificationCounter, this`derived, manager
      ensures Shown()
      ensures note == old(note)[..start] + inserted + old(note)[start + before..]
      ensures noteChanged == (old(noteChanged) || listeners > 0)
      ensures '\n' in inserted && listeners > 0 ==> derived == Derive(note)
      ensures '\n' !in inserted || listeners == 0 ==>
        derived == old(derived) && notificationCounter == old(notificationCounter) &&
        manager.active == old(manager.active)
      ensures manager.log == old(manager.log) +
        (if '\n' in inserted then RepeatRefresh(derived, old(notificationCounter), listeners) else [])
    {
      note := note[..start] + inserted + note[start + before..];
      assert note[start..start + |inserted|] == inserted;
      CallTextWatchers(start, |inserted|);
    }

    /** The editor calls onTextChanged of each attached text watcher for the count characters at start. */
    method CallTextWatchers(start: int, count: int)
      requires Shown() && 0 <= start && 0 <= count && start + count <= |note|
      modifies this`noteChanged, this`notificationCounter, this`derived, manager
      ensures Shown()
      ensures noteChanged == (old(noteChanged) || listeners > 0)
      ensures '\n' in note[start..start + count] && listeners > 0 ==> derived == Derive(note)
      ensures '\n' !in note[start..start + count] || listeners == 0 ==>
        derived == old(derived) && notificationCounter == old(notificationCounter) &&
        manager.active == old(manager.active)
      ensures manager.log == old(manager.log) +
        (if '\n' in note[start..start + count] then RepeatRefresh(derived, old(notificationCounter), listeners) else [])
    {
      ghost var nl := '\n' in note[start..start + count];
      ghost var log0, count0, active0, derived0 := manager.log, notificationCounter, manager.active, derived;
      ghost var d := Derive(note);
      ghost var first, again := Refresh(d, count0), Refresh(d, |d|);
      var k := 0;
      while k < listeners
        invariant 0 <= k <= listeners
        invariant Shown()
        invariant noteChanged == (old(noteChanged) || k > 0)
        invariant nl && k > 0 ==> derived == d
        invariant !nl || k == 0 ==>
          derived == derived0 && notificationCounter == count0 && manager.active == active0
        invariant nl ==> manager.log == log0 + Repeat(first, again, k)
        invariant !nl ==> manager.log == log0
        modifies this`noteChanged, this`notificationCounter, this`derived, manager
      {
        ghost var logk, countk := manager.log, notificationCounter;
        OnTextChanged(start, count);
        WatcherStep(nl, first, again, k, Refresh(d, countk), log0, logk, manager.log);
        k := k + 1;
      }
    }

    /** setText: replace the whole note. */
    method SetText(text: string)
      requires Shown()
      modifies this`note, this`noteChanged, this`notificationCounter, this`derived, manager
      ensures Shown() && note == text
      ensures noteChanged == (old(noteChanged) || listeners > 0)
      ensures '\n' in text && listeners > 0 ==> derived == Derive(text)
      ensures '\n' !in text || listeners == 0 ==>
        derived == old(derived) && notificationCounter == old(notificationCounter) &&
        manager.active == old(manager.active)
      ensures manager.log == old(manager.log) +
        (if '\n' in text then RepeatRefresh(derived, old(notificationCounter), listeners) else [])
    {
      ReplaceText(0, |note|, text);
    }

    /** setNoteChangeListener: clear the dirty flag and attach one more text watcher. */
    method SetNoteChangeListener()
      modifies this`noteChanged, this`listeners, this`latestAttached
      ensures !noteChanged && listeners == old(listeners) + 1 && latestAttached
    {
      noteChanged := false;
      listeners := listeners + 1;
      latestAttached := true;
    }

    /** removeNoteChangeListener: detach the watcher created last, and only that one. */
    method RemoveNoteChangeListener()
      requires Valid()
      modifies this`listeners, this`latestAttached
      ensures Valid() && !latestAttached
      ensures listeners == if old(latestAttached) then old(listeners) - 1 else old(listeners)
    {
      if latestAttached {
        listeners := listeners - 1;
        latestAttached := false;
      }
    }

    /** clearNote: empty the editor and derive from the empty note. */
    method ClearNote()
      requires Shown()
      modifies this`note, this`noteChanged, this`notificationCounter, this`derived, manager
      ensures Shown() && ClearedNote()
    {
      assert '\n' !in "";
      SetText("");
      assert note == "" && manager.log == old(manager.log);
      GenerateNotificationsFromNote("");
      RefreshEmpty(old(notificationCounter));
    }

    // -------------------------------------------------------------------
    // Persistence

    /**
     * saveNote: write the note when the file is missing or the note has
     * changed. writeOk says whether the write succeeds; a success attaches
     * a new text watcher, which clears the dirty flag. The result says
     * whether a write was attempted.
     */
    method SaveNote(writeOk: bool) returns (attempted: bool)
      requires Valid()
      modifies this`file, this`noteChanged, this`listeners, this`latestAttached
      ensures Valid()
      ensures attempted == (old(file).None? || old(noteChanged))
      ensures attempted && writeOk ==>
        file == Some(note) && !noteChanged && listeners == old(listeners) + 1 && latestAttached
      ensures !(attempted && writeOk) ==>
        file == old(file) && noteChanged == old(noteChanged) &&
        listeners == old(listeners) && latestAttached == old(latestAttached)
    {
      attempted := file.None? || noteChanged;
      if attempted && writeOk {
        file := Some(note);
        SetNoteChangeListener();
      }
    }

    /**
     * loadNote: when the file exists and readOk says the read succeeds, put
     * its contents into the editor; otherwise leave the note as it is.
     */
    method LoadNote(readOk: bool)
      requires Shown()
      modifies this`note, this`noteChanged, this`notificationCounter, this`derived, manager
      ensures Shown()
      ensures file.Some? && readOk ==>
        note == file.value && noteChanged == (old(noteChanged) || listeners > 0) &&
        manager.log == old(manager.log) +
          (if '\n' in note then RepeatRefresh(derived, old(notificationCounter), listeners) else [])
      ensures file.Some? && readOk && '\n' in note && listeners > 0 ==> derived == Derive(note)
      ensures file.Some? && readOk && ('\n' !in note || listeners == 0) ==>
        derived == old(derived) && notificationCounter == old(notificationCounter) &&
        manager.active == old(manager.active)
      ensures !(file.Some? && readOk) ==> NoteUntouched()
      ensures note == if file.Some? && readOk then file.value else old(note)
      ensures manager.log == old(manager.log) +
        (if file.Some? && readOk && '\n' in note then RepeatRefresh(derived, old(notificationCounter), listeners) else [])
      ensures notificationCounter ==
        if file.Some? && readOk && '\n' in note && listeners > 0 then |derived| else old(notificationCounter)
    {
      if file.Some? && readOk {
        SetText(file.value);
      }
    }

    /** onResume: load the note, attach a text watcher, and derive from the note. */
    method OnResume(readOk: bool)
      requires Valid()
      modifies this`note, this`noteChanged, this`notificationCounter, this`derived, manager,
        this`listeners, this`latestAttached
      ensures Valid()
      ensures note == if file.Some? && readOk then file.value else old(note)
      ensures !noteChanged && listeners == old(listeners) + 1 && latestAttached
      ensures derived == Derive(note)
      ensures manager.log == old(manager.log) +
        (if file.Some? && readOk && '\n' in note then RepeatRefresh(derived, old(notificationCounter), old(listeners)) else []) +
        Refresh(derived, if file.Some? && readOk && '\n' in note && old(listeners) > 0 then |derived| else old(notificationCounter))
    {
      ghost var log0, count0, k := manager.log, notificationCounter, listeners;
      LoadNote(readOk);
      ghost var log1, count1, derived1 := manager.log, notificationCounter, derived;
      ghost var loaded, nl := file.Some? && readOk, '\n' in note;
      assert Valid();
      SetNoteChangeListener();
      assert Valid();
      GenerateNotificationsFromNote(note);
      assert nl == ('\n' in note);
      ResumeLog(loaded, nl, k, derived1, derived, count0, count1, log0, log1, manager.log);
    }

    /**
     * onPause: save, then detach the latest text watcher. After a
     * successful write the watcher attached before it stays attached.
     */
    method OnPause(writeOk: bool)
      requires Valid()
      modifies this`file, this`noteChanged, this`listeners, this`latestAttached
      ensures Valid() && !latestAttached
      ensures file == if (old(file).None? || old(noteChanged)) && writeOk then Some(note) else old(file)
      ensures noteChanged == if (old(file).None? || old(noteChanged)) && writeOk then false else old(noteChanged)
      ensures listeners ==
        if (old(file).None? || old(noteChanged)) && writeOk then old(listeners)
        else if old(latestAttached) then old(listeners) - 1
        else old(listeners)
    {
      var _ := SaveNote(writeOk);
      RemoveNoteChangeListener();
    }

    /** onKeyboardVisibilityChanged: save when the keyboard goes away. */
    method OnKeyboardVisibilityChanged(visible: bool, writeOk: bool) returns (attempted: bool)
      requires Valid()
      modifies this`file, this`noteChanged, this`listeners, this`latestAttached
      ensures Valid()
      ensures attempted == (!visible && (old(file).None? || old(noteChanged)))
      ensures attempted && writeOk ==>
        file == Some(note) && !noteChanged && listeners == old(listeners) + 1 && latestAttached
      ensures !(attempted && writeOk) ==>
        file == old(file) && noteChanged == old(noteChanged) && listeners == old(listeners) &&
        latestAttached == old(latestAttached)
    {
      attempted := false;
      if !visible {
        attempted := SaveNote(writeOk);
      }
    }

    // -------------------------------------------------------------------
    // Quintuple tap and the clear choice

    /**
     * OnQuintupleTap: with ALWAYS_CLEAR clear the note, with UNSET show the
     * dialog, otherwise do nothing.
     */
    method OnQuintupleTap() returns (reaction: Reaction)
      requires Valid() && !dialogOpen
      modifies this`note, this`noteChanged, this`notificationCounter, this`derived, manager, this`dialogOpen
      ensures Valid()
      ensures reaction == React(pref)
      ensures dialogOpen == (reaction == AskUser)
      ensures reaction == ClearNow ==> ClearedNote()
      ensures reaction != ClearNow ==> NoteUntouched()
    {
      reaction := React(pref);
      if pref == ALWAYS_CLEAR {
        ClearNote();
      } else if pref == UNSET {
        dialogOpen := true;
      }
    }

    /**
     * setQuintupleTapListener for one touch event: a press-down starts the
     * decay timer when the count is zero, counts, and fires OnQuintupleTap
     * when the count becomes five. Touches reach the activity only while
     * no dialog is on screen.
     */
    method SetQuintupleTapListener(action: int) returns (startedDecay: bool, fired: bool)
      requires Valid() && !dialogOpen
      modifies this`tapCounter, this`decayPending, this`note, this`noteChanged,
        this`notificationCounter, this`derived, manager, this`dialogOpen
      ensures Valid()
      ensures Taps(tapCounter, decayPending) == Next(old(Taps(tapCounter, decayPending)), Touch(action))
      ensures startedDecay == StartsDecay(old(Taps(tapCounter, decayPending)), Touch(action))
      ensures fired == Fires(old(Taps(tapCounter, decayPending)), Touch(action))
      ensures dialogOpen == (fired && React(pref) == AskUser)
      ensures fired && React(pref) == ClearNow ==> ClearedNote()
      ensures !(fired && React(pref) == ClearNow) ==> NoteUntouched()
    {
      startedDecay, fired := false, false;
      if action == ACTION_DOWN {
        if tapCounter == 0 {
          startedDecay := true;
          decayPending := true;
        }
        tapCounter := tapCounter + 1;
        if tapCounter == QUINTUPLE {
          fired := true;
          var _ := OnQuintupleTap();
        }
      }
    }

    /** The decay thread wakes up and resets the count. */
    method DecayTimerExpired()
      requires Valid() && decayPending
      modifies this`tapCounter, this`decayPending
      ensures Valid()
      ensures Taps(tapCounter, decayPending) == Next(old(Taps(tapCounter, decayPending)), DecayExpired)
    {
      tapCounter := 0;
      decayPending := false;
    }

    /** The dialog's YES button: clear the note, and store ALWAYS_CLEAR if "remember" is ticked. */
    method OnClearDialogYes(remember: bool)
      requires Valid() && dialogOpen
      modifies this`note, this`noteChanged, this`notificationCounter, this`derived, manager,
        this`pref, this`dialogOpen
      ensures Valid() && !dialogOpen && ClearedNote()
      ensures pref == StoredAfter(old(pref), Yes(remember))
      ensures pref != old(pref) ==> old(pref) == UNSET
    {
      ClearNote();
      if remember {
        pref := ALWAYS_CLEAR;
      }
      dialogOpen := false;
    }

    /** The dialog's NO button: store ALWAYS_IGNORE if "remember" is ticked. */
    method OnClearDialogNo(remember: bool)
      requires Valid() && dialogOpen
      modifies this`pref, this`dialogOpen
      ensures Valid() && !dialogOpen
      ensures pref == StoredAfter(old(pref), No(remember))
      ensures pref != old(pref) ==> old(pref) == UNSET
    {
      if remember {
        pref := ALWAYS_IGNORE;
      }
      dialogOpen := false;
    }

    /** The dialog is closed without a button (back key, touch outside). */
    method DismissClearDialog()
      requires Valid() && dialogOpen
      modifies this`dialogOpen
      ensures Valid() && !dialogOpen
    {
      dialogOpen := false;
    }
  }

  // ---------------------------------------------------------------------
  // Clients: what callers can conclude from the contracts alone

  /** Two saves with no edit in between: the second never writes. */
  method SaveTwice(a: MainActivity, secondOk: bool) returns (first: bool, second: bool)
    requires a.Valid()
    modifies a
    ensures first == (old(a.file).None? || old(a.noteChanged))
    ensures !second
  {
    first := a.SaveNote(true);
    second := a.SaveNote(secondOk);
  }

  /** Five press-downs from a zero count: only the fifth fires. */
  method FiveTaps(a: MainActivity) returns (fired: seq<bool>)
    requires a.Valid() && a.tapCounter == 0 && !a.dialogOpen
    modifies a, a.manager
    ensures fired == [false, false, false, false, true]
  {
    fired := [];
    var k := 0;
    while k < 4
      invariant 0 <= k <= 4
      invariant a.Valid() && a.tapCounter == k && !a.dialogOpen
      invariant fired == seq(k, _ => false)
    {
      var _, f := a.SetQuintupleTapListener(ACTION_DOWN);
      fired := fired + [f];
      k := k + 1;
    }
    var _, f := a.SetQuintupleTapListener(ACTION_DOWN);
    fired := fired + [f];
  }

  /** After answering with "remember" ticked, the next quintuple tap does not show the dialog. */
  method RememberedAnswer(a: MainActivity, yes: bool) returns (next: Reaction)
    requires a.Valid() && a.dialogOpen
    modifies a, a.manager
    ensures next == if yes then ClearNow else DoNothing
    ensures !a.dialogOpen
  {
    if yes {
      a.OnClearDialogYes(true);
    } else {
      a.OnClearDialogNo(true);
    }
    next := a.OnQuintupleTap();
  }
}
