# Jot: the note session of `MainActivity`, modelled and verified in Dafny

Jot is a one-screen Android notepad. The logic of `MainActivity` that is not
Android glue is modelled here and proved:

- **Notifications from the note.** Every line of the note that is longer than
  two characters and starts with `--` becomes a notification; the `--` is not
  shown. The lines are read with `java.util.Scanner`, the messages are stacked,
  and then they are posted as the stack is emptied, so the last marker line
  gets id 1. Ids run 1..n. Every id from n + 1 up to the previous count is
  cancelled.
- **The quintuple tap.** A press-down counter. The first press-down starts a
  one-second decay timer that resets the counter. The action fires when the
  count becomes exactly five.
- **The clear choice.** It is stored as 0 = unset, 1 = always ignore,
  2 = always clear, and decides what a quintuple tap does: clear the note,
  ask with a dialog, or do nothing. The dialog's YES/NO buttons and its
  "remember" box set the choice.
- **The save policy.** The note is written only when the file is missing or the
  dirty flag `noteChanged` is set. A successful write calls
  `setNoteChangeListener`, which clears the flag and attaches one more text
  watcher without detaching the old one. `removeNoteChangeListener` detaches
  only the watcher created last. Every attached watcher sets the flag on a text
  change and re-derives the notifications when the inserted text holds a
  newline.
- **The keyboard edge detector.** It calls back only when the computed
  visibility differs from the one it remembers.

Modules:

- `LineScanner`: the line splitting of `java.util.Scanner.nextLine` as the
  function `Lines`, plus a `Scanner` class that yields the same lines.
  Separators are `\r\n`, `\n`, `\r`, U+2028, U+2029 and U+0085; input that ends
  with a separator has no empty last line.
- `Notifications`: the specification functions, the lemmas about them, and a
  `NotificationManager` class.
  - `Derive(text)` gives the messages in scan order; `Delivered(text)` is
    `Reverse(Derive(text))`.
  - `IdMap` is the id → message map on show.
  - `Refresh(ms, oldCount)` is the exact sequence of `notify`/`cancel` calls
    one derivation makes.
  - `NotificationManager` records the notifications on show (`active`) and
    every call made to it (`log`).
- `QuintupleTap`: the tap counter as a state machine over inputs, where the
  timer's expiry is an input of its own.
- `ClearChoice`: the stored choice, the dispatch on it, and the dialog's
  answers.
- `Keyboard`: the edge detector, both as a function and as a listener class.
- `Jot`: the class `MainActivity`, with the fields the activity updates and
  one method per handler; `generateNotificationsFromNote` keeps its three
  loops.
  - The ghost field `derived` holds the messages of the most recent
    derivation. `Shown()` states the invariant the methods keep: the counter
    is `|derived|` and the notifications on show are
    `IdMap(Reverse(derived))`.
  - The text watchers are a count, `listeners`, plus a flag saying whether the
    one created last is still attached.

Behaviour of the code worth knowing:

- A text change whose inserted text holds a newline re-derives once for every attached watcher.
- The dirty flag is cleared only by attaching a new watcher.
- With the file present and `noteChanged` clear, a save writes nothing.

The outcomes of I/O are parameters:

- `readOk` says whether reading the note file succeeds;
- `writeOk` says whether writing it succeeds;
- the keyboard's height difference and threshold are integers passed in;
- the decay timer's expiry is the call `DecayTimerExpired`.

## Model

| member | source | states |
|---|---|---|
| LineScanner.IsLineSeparator | app/src/main/java/com/hamandeggs/jot/MainActivity.java:353-355 | the characters that end a line for Scanner: \n, \r, U+2028, U+2029, U+0085 (\r\n counting as one separator) |
| LineScanner.LineEnd | app/src/main/java/com/hamandeggs/jot/MainActivity.java:355 | the first line ends at a separator or at the end of the input |
| LineScanner.LineEndNoSeparator | app/src/main/java/com/hamandeggs/jot/MainActivity.java:355 | the first line holds no separator |
| LineScanner.LineEndAt | app/src/main/java/com/hamandeggs/jot/MainActivity.java:355 | the first line ends exactly at the first separator |
| LineScanner.SepLen | app/src/main/java/com/hamandeggs/jot/MainActivity.java:355 | a separator is one character, or two for "\r\n", and lies inside the input |
| LineScanner.Lines | app/src/main/java/com/hamandeggs/jot/MainActivity.java:353-355 | a string yields no lines exactly when it is empty |
| LineScanner.LinesHaveNoSeparator | app/src/main/java/com/hamandeggs/jot/MainActivity.java:355 | no line that nextLine returns holds a separator |
| LineScanner.LinesOfJoin | app/src/main/java/com/hamandeggs/jot/MainActivity.java:353-355 | splitting lines joined with "\n" gives the lines back when none holds a separator and the last is not empty |
| LineScanner.NextStart | app/src/main/java/com/hamandeggs/jot/MainActivity.java:355 | the next line starts after the separator, never before the end of the line and never past the input |
| LineScanner.LinesAt | app/src/main/java/com/hamandeggs/jot/MainActivity.java:355 | reading up to the first separator yields that line, then the lines after its separator |
| LineScanner.Scanner.constructor | app/src/main/java/com/hamandeggs/jot/MainActivity.java:353 | a new scanner has all of the text left to read |
| LineScanner.Scanner.HasNextLine | app/src/main/java/com/hamandeggs/jot/MainActivity.java:354 | hasNextLine holds exactly when some line is left |
| LineScanner.Scanner.NextLine | app/src/main/java/com/hamandeggs/jot/MainActivity.java:355 | nextLine returns the first line left and consumes it with its separator, so the lines left lose their head |
| Notifications.IsMarkerLine | app/src/main/java/com/hamandeggs/jot/MainActivity.java:356 | a line is a marker line when it is longer than two characters and its first two are '-' |
| Notifications.Markers | app/src/main/java/com/hamandeggs/jot/MainActivity.java:356-357 | there are never more messages than lines |
| Notifications.MarkersAppend | app/src/main/java/com/hamandeggs/jot/MainActivity.java:354-359 | the messages of two runs of lines are the messages of each, in order |
| Notifications.MarkersExactly | app/src/main/java/com/hamandeggs/jot/MainActivity.java:356-357 | m is a message exactly when some line has length > 2, starts with "--", and is "--" + m |
| Notifications.Derive | app/src/main/java/com/hamandeggs/jot/MainActivity.java:352-359 | the messages the scanning loop stacks: Markers of the note's lines; the counter and the ids on show are stated in it |
| Notifications.MarkersSnoc | app/src/main/java/com/hamandeggs/jot/MainActivity.java:354-359 | the lines read before the last one give their messages, then the last line its own |
| Notifications.MarkersIndexed | app/src/main/java/com/hamandeggs/jot/MainActivity.java:354-359 | one message per marker line, in order: message j is the j-th marker line from the top minus "--", the marker-line indices increase, and every marker line is counted |
| Notifications.MarkersCount | app/src/main/java/com/hamandeggs/jot/MainActivity.java:354-359 | there are exactly as many messages as marker lines |
| Notifications.DeriveCount | app/src/main/java/com/hamandeggs/jot/MainActivity.java:350-359 | the count a derivation leaves, the size of Derive(text), is the number of marker lines of the note, and message j is the j-th of them minus "--" |
| Notifications.DeriveExactly | app/src/main/java/com/hamandeggs/jot/MainActivity.java:353-359 | a note's messages come from exactly its marker lines minus the marker, and none is empty |
| Notifications.DeriveOneLine | app/src/main/java/com/hamandeggs/jot/MainActivity.java:355-358 | the first line read adds its message, if it has one, ahead of the messages of the rest |
| Notifications.DeriveExample | app/src/main/java/com/hamandeggs/jot/MainActivity.java:349-364 | "hello\n--first\nworld\n--second" derives ["first", "second"] and delivers ["second", "first"] |
| Notifications.ExampleLines | app/src/main/java/com/hamandeggs/jot/MainActivity.java:353-355 | that note splits into its four lines |
| Notifications.ExampleMarkers | app/src/main/java/com/hamandeggs/jot/MainActivity.java:356-357 | of its four lines, the two "--" lines give messages |
| Notifications.Delivered | app/src/main/java/com/hamandeggs/jot/MainActivity.java:361-364 | the messages in the order they are posted: the stack emptied, so the last marker line first |
| Notifications.Reverse | app/src/main/java/com/hamandeggs/jot/MainActivity.java:362-364 | emptying the stack yields as many messages as were pushed |
| Notifications.ReverseAt | app/src/main/java/com/hamandeggs/jot/MainActivity.java:362-364 | the k-th message popped is the k-th pushed, counted from the top |
| Notifications.DeliveredAt | app/src/main/java/com/hamandeggs/jot/MainActivity.java:362-364 | id i carries the i-th marker line from the bottom of the note, so id 1 carries the last one |
| Notifications.Ids | app/src/main/java/com/hamandeggs/jot/MainActivity.java:367-369 | holds exactly the ids lo..hi |
| Notifications.IdMap | app/src/main/java/com/hamandeggs/jot/MainActivity.java:389 | the ids on show after n posts are exactly 1..n |
| Notifications.NotifyCalls | app/src/main/java/com/hamandeggs/jot/MainActivity.java:362-364 | one notify per message |
| Notifications.CancelCalls | app/src/main/java/com/hamandeggs/jot/MainActivity.java:367-369 | one cancel per id from lo to hi, none when lo > hi |
| Notifications.Refresh | app/src/main/java/com/hamandeggs/jot/MainActivity.java:361-369 | the calls of one derivation: the messages posted last first under ids 1..n, then cancels of n + 1..old count |
| Notifications.RepeatRefresh | app/src/main/java/com/hamandeggs/jot/MainActivity.java:299-306 | the calls of k watchers deriving the same note in turn: the first finds the old count, each later one the count its predecessor left |
| Notifications.RepeatRefreshFirst | app/src/main/java/com/hamandeggs/jot/MainActivity.java:299-306 | the calls of k watchers are one derivation from the old count followed by those of k - 1 watchers that each find the count of the note itself |
| Notifications.Perform | app/src/main/java/com/hamandeggs/jot/MainActivity.java:389 | notify puts the message under its id (replacing any), and cancel (line 368) removes the id |
| Notifications.Apply | app/src/main/java/com/hamandeggs/jot/MainActivity.java:362-369 | the notifications on show after a run of calls, performed in order |
| Notifications.ApplyAppend | app/src/main/java/com/hamandeggs/jot/MainActivity.java:349-372 | performing two runs of calls is performing the first, then the second |
| Notifications.ApplyNotifyCalls | app/src/main/java/com/hamandeggs/jot/MainActivity.java:362-364 | posting the messages under 1..n replaces those ids and keeps all others |
| Notifications.ApplyCancelCalls | app/src/main/java/com/hamandeggs/jot/MainActivity.java:367-369 | cancelling lo..hi removes exactly those ids |
| Notifications.RefreshShows | app/src/main/java/com/hamandeggs/jot/MainActivity.java:349-372 | after a derivation exactly the new messages are on show, id i with the i-th one posted, whatever the previous derivation left |
| Notifications.StaleRemoved | app/src/main/java/com/hamandeggs/jot/MainActivity.java:366-369 | cancelling the ids beyond the new count leaves only the new posts |
| Notifications.RefreshCancels | app/src/main/java/com/hamandeggs/jot/MainActivity.java:366-369 | a derivation cancels id exactly when new count < id <= old count |
| Notifications.RefreshCancelsNothing | app/src/main/java/com/hamandeggs/jot/MainActivity.java:367 | no cancel when the new count is at least the old one |
| Notifications.RefreshNotifies | app/src/main/java/com/hamandeggs/jot/MainActivity.java:361-364 | id i is posted with message m exactly when 1 <= i <= n and m is the i-th message from the bottom |
| Notifications.RederiveUnchanged | app/src/main/java/com/hamandeggs/jot/MainActivity.java:349-372 | deriving the same messages again cancels nothing and leaves the same id → message map |
| Notifications.RepeatRefreshShows | app/src/main/java/com/hamandeggs/jot/MainActivity.java:299-306 | several watchers deriving the same note in a row leave on show what one derivation leaves |
| Notifications.RefreshEmpty | app/src/main/java/com/hamandeggs/jot/MainActivity.java:330-332 | the empty note has no messages; deriving it posts nothing and cancels 1..old count |
| Notifications.NotificationManager.constructor | app/src/main/java/com/hamandeggs/jot/MainActivity.java:399 | a fresh manager shows nothing and has had no calls |
| Notifications.NotificationManager.Notify | app/src/main/java/com/hamandeggs/jot/MainActivity.java:389 | notify(id, m) puts m under id and logs the call |
| Notifications.NotificationManager.Cancel | app/src/main/java/com/hamandeggs/jot/MainActivity.java:368 | cancel(id) removes id and logs the call |
| QuintupleTap.StartsDecay | app/src/main/java/com/hamandeggs/jot/MainActivity.java:142 | the decay timer is started by a press-down when the count is zero |
| QuintupleTap.Fires | app/src/main/java/com/hamandeggs/jot/MainActivity.java:157 | the action fires on a press-down that makes the count five |
| QuintupleTap.Next | app/src/main/java/com/hamandeggs/jot/MainActivity.java:140-161 | only a press-down counts, and it adds one; the expiry resets to zero; inputs other than press-down and expiry change nothing; the action fires exactly when the count becomes five; a pending timer matches a positive count |
| QuintupleTap.Downs | app/src/main/java/com/hamandeggs/jot/MainActivity.java:141 | helper for the tap lemmas: a run of n press-downs as input, not a model of these lines |
| QuintupleTap.AtMostOncePerWindow | app/src/main/java/com/hamandeggs/jot/MainActivity.java:140-161 | within one decay window the action fires at most once, and not at all past five; the timer starts at most once, and only from zero |
| QuintupleTap.DownsRun | app/src/main/java/com/hamandeggs/jot/MainActivity.java:140-161 | n press-downs raise the count by n and fire exactly when they carry it from below five to five or more |
| QuintupleTap.RunAppend | app/src/main/java/com/hamandeggs/jot/MainActivity.java:140-161 | a run split in two has the combined end state, firings and feasibility of its halves |
| QuintupleTap.FiveDownsFireOnce | app/src/main/java/com/hamandeggs/jot/MainActivity.java:140-161 | five press-downs within one window fire once |
| QuintupleTap.FourDownsPauseOneDownDoNotFire | app/src/main/java/com/hamandeggs/jot/MainActivity.java:140-161 | four press-downs, the window running out, then one press-down do not fire |
| ClearChoice.React | app/src/main/java/com/hamandeggs/jot/MainActivity.java:165-170 | the stored choice 2 clears, 0 shows the dialog, any other value does nothing |
| ClearChoice.StoredAfter | app/src/main/java/com/hamandeggs/jot/MainActivity.java:185-198 | YES with "remember" stores 2, NO with "remember" stores 1, anything else keeps the choice |
| ClearChoice.Episode | app/src/main/java/com/hamandeggs/jot/MainActivity.java:163-201 | the dialog is shown exactly when the choice is unset; the note is cleared exactly on always-clear or on YES; the stored choice changes only from unset, only by a ticked "remember", and to 2 after YES, 1 after NO |
| ClearChoice.SettledChoiceStays | app/src/main/java/com/hamandeggs/jot/MainActivity.java:163-201 | once 1 or 2 is stored, no later quintuple tap changes it or shows the dialog |
| ClearChoice.RememberSkipsDialog | app/src/main/java/com/hamandeggs/jot/MainActivity.java:181-201 | answering with "remember" ticked shows the dialog that once only; afterwards every tap clears on YES and none does on NO |
| Keyboard.OnLayout | app/src/main/java/com/hamandeggs/jot/MainActivity.java:276-283 | the keyboard counts as shown when heightDiff >= threshold; a callback happens exactly when that differs from the remembered state, and it reports the new state |
| Keyboard.CallbacksAlternate | app/src/main/java/com/hamandeggs/jot/MainActivity.java:272-284 | the callbacks alternate between shown and hidden, start away from the initial state, and the last one matches the final state |
| Keyboard.KeyboardVisibilityListener.constructor | app/src/main/java/com/hamandeggs/jot/MainActivity.java:266 | the listener starts out remembering a closed keyboard |
| Keyboard.KeyboardVisibilityListener.OnGlobalLayout | app/src/main/java/com/hamandeggs/jot/MainActivity.java:272-284 | one layout pass updates the remembered state and calls back as OnLayout says |
| Jot.Contains | app/src/main/java/com/hamandeggs/jot/MainActivity.java:317-324 | true exactly when c occurs in s |
| Jot.MarkedMessages | app/src/main/java/com/hamandeggs/jot/MainActivity.java:352-359 | the scanning loop stacks exactly Derive(text), in scan order |
| Jot.MarkedStep | app/src/main/java/com/hamandeggs/jot/MainActivity.java:355-358 | one iteration keeps the stack plus the messages of the unread lines equal to Derive(text) |
| Jot.WatcherStep | app/src/main/java/com/hamandeggs/jot/MainActivity.java:299-306 | one more watcher that sees a newline adds one more derivation to the calls |
| Jot.ResumeLog | app/src/main/java/com/hamandeggs/jot/MainActivity.java:86-89 | the calls of onResume are those of loading the note followed by one derivation from the count loading left |
| Jot.RefreshComposedShows | app/src/main/java/com/hamandeggs/jot/MainActivity.java:361-369 | the posts followed by the cancels leave exactly the new messages on show |
| Jot.RefreshComposedLog | app/src/main/java/com/hamandeggs/jot/MainActivity.java:361-369 | the posts followed by the cancels are the calls of one derivation |
| Jot.MainActivity.constructor | app/src/main/java/com/hamandeggs/jot/MainActivity.java:53-58 | a new activity has an empty note, no watcher, zero counters, nothing on show, and the stored file and choice |
| Jot.MainActivity.MakePushNotification | app/src/main/java/com/hamandeggs/jot/MainActivity.java:374-390 | the counter goes up by one and the message is posted under the new count |
| Jot.MainActivity.GenerateNotificationsFromNote | app/src/main/java/com/hamandeggs/jot/MainActivity.java:349-372 | afterwards the counter is the number of marker lines, exactly Derive(text) is on show in reverse (id 1 the last marker line), and the calls made are exactly the posts then the cancels of n + 1..old count |
| Jot.MainActivity.PushAll | app/src/main/java/com/hamandeggs/jot/MainActivity.java:361-364 | popping the stack posts the messages last first, under ids 1..n, and leaves the counter at n |
| Jot.MainActivity.CancelStale | app/src/main/java/com/hamandeggs/jot/MainActivity.java:366-369 | cancels lo..hi in order and removes exactly those ids |
| Jot.MainActivity.OnTextChanged | app/src/main/java/com/hamandeggs/jot/MainActivity.java:299-307 | sets noteChanged; derives from the note exactly when the inserted span holds a newline, and otherwise leaves the notifications alone |
| Jot.MainActivity.ReplaceText | app/src/main/java/com/hamandeggs/jot/MainActivity.java:304 | the note gets the replacement, every attached watcher sees the inserted span, and one derivation per watcher happens when that span holds a newline |
| Jot.MainActivity.CallTextWatchers | app/src/main/java/com/hamandeggs/jot/MainActivity.java:292-314 | each of the listeners attached watchers runs onTextChanged; with a newline they make listeners derivations in a row, and only the first can cancel |
| Jot.MainActivity.SetText | app/src/main/java/com/hamandeggs/jot/MainActivity.java:212 | setText replaces the note and notifies every attached watcher as ReplaceText does |
| Jot.MainActivity.SetNoteChangeListener | app/src/main/java/com/hamandeggs/jot/MainActivity.java:290-315 | clears noteChanged and attaches one more watcher, leaving the earlier ones attached |
| Jot.MainActivity.RemoveNoteChangeListener | app/src/main/java/com/hamandeggs/jot/MainActivity.java:326-328 | detaches one watcher only if the one created last is still attached |
| Jot.MainActivity.ClearNote | app/src/main/java/com/hamandeggs/jot/MainActivity.java:330-334 | the note becomes "", the counter 0, nothing is on show, and ids 1..old count are cancelled |
| Jot.MainActivity.SaveNote | app/src/main/java/com/hamandeggs/jot/MainActivity.java:220-235 | writes exactly when the file is missing or noteChanged is set; a successful write stores the note, clears the flag and attaches a watcher, and a failed one changes nothing |
| Jot.MainActivity.LoadNote | app/src/main/java/com/hamandeggs/jot/MainActivity.java:205-218 | with an existing, readable file the note becomes its contents through setText, the attached watchers see it, and with a newline and a watcher the notifications become those of the loaded note, while without one they stay as they were; the calls made are one derivation per attached watcher when the loaded note holds a newline, and the count is that of the loaded note exactly then; otherwise nothing changes |
| Jot.MainActivity.OnResume | app/src/main/java/com/hamandeggs/jot/MainActivity.java:86-91 | afterwards the note is loaded, the flag clear, one more watcher attached, and the notifications are those of the note; the calls made are those of loading through setText (one derivation per watcher attached before, when the loaded note holds a newline), then one full derivation whose cancels run from the count loading left |
| Jot.MainActivity.OnPause | app/src/main/java/com/hamandeggs/jot/MainActivity.java:79-83 | saves, then detaches the latest watcher, which after a successful write is the one the save attached; the flag is clear after a write and unchanged otherwise |
| Jot.MainActivity.OnKeyboardVisibilityChanged | app/src/main/java/com/hamandeggs/jot/MainActivity.java:97-101 | saves by the save policy exactly when the keyboard is put away; a successful write stores the note, clears the flag and attaches a watcher, which is then the latest |
| Jot.MainActivity.OnQuintupleTap | app/src/main/java/com/hamandeggs/jot/MainActivity.java:163-171 | choice 2 clears the note, 0 opens the dialog, anything else leaves everything as it was |
| Jot.MainActivity.SetQuintupleTapListener | app/src/main/java/com/hamandeggs/jot/MainActivity.java:140-161 | one touch moves the counter as QuintupleTap.Next; the timer starts only from zero; OnQuintupleTap runs exactly when the count becomes five |
| Jot.MainActivity.DecayTimerExpired | app/src/main/java/com/hamandeggs/jot/MainActivity.java:143-153 | the decay thread resets the counter to zero |
| Jot.MainActivity.OnClearDialogYes | app/src/main/java/com/hamandeggs/jot/MainActivity.java:181-191 | YES clears the note and stores 2 when "remember" is ticked |
| Jot.MainActivity.OnClearDialogNo | app/src/main/java/com/hamandeggs/jot/MainActivity.java:192-201 | NO stores 1 when "remember" is ticked and changes nothing else |
| Jot.MainActivity.DismissClearDialog | app/src/main/java/com/hamandeggs/jot/MainActivity.java:202 | closing the dialog without a button stores nothing |
| Jot.SaveTwice | app/src/main/java/com/hamandeggs/jot/MainActivity.java:220-235 | after a successful save, a second one with no edit in between writes nothing |
| Jot.FiveTaps | app/src/main/java/com/hamandeggs/jot/MainActivity.java:140-161 | five press-downs from zero: only the fifth fires |
| Jot.RememberedAnswer | app/src/main/java/com/hamandeggs/jot/MainActivity.java:163-201 | after an answer with "remember" ticked the next quintuple tap clears (YES) or does nothing (NO), and no dialog opens |

## Left out

- The long-press gesture (lines 115-138) and `copyNote` (336-343): a sleeping thread that can be interrupted, and the clipboard, which is a platform call.
- Everything `onCreate` (62-76) does besides creating the state: night mode, the layout, focus and the soft-input mode. `getJotter`, `simpleToast` and the construction of the dialog are left out too; only the button outcomes remain.
- File I/O (`readTextFile`, `FileWriter`, `getFilesDir`): the file is an `Option<string>`, and the success of a read or a write is a parameter.
- Jot.MainActivity.SaveNote: a failed write leaves the file as it was. `FileWriter` can already have created or truncated the file when the write fails; that partial state is not modelled.
- `createNotificationChannel` (392-402): below API level 26 `notificationManager` stays null, and the first notify or cancel would throw. The model always has a manager.
- Notification content and behaviour besides id and message are not modelled: intent, icon, priority, alert-once. Also left out: the user dismissing a notification, and notifications outliving the process, which a fresh activity's counter of 0 would not cancel.
- The decay thread runs concurrently with the UI thread and writes `tapCounter` without synchronisation (143-153). The model makes its expiry an input, `DecayTimerExpired`, and does not model interleavings.
- Touches while the clear dialog is on screen go to the dialog, so the quintuple-tap methods require that no dialog is open. A second dialog stacked over the first is not modelled.
- Counters are unbounded integers. Java's 32-bit `int` would wrap only after more than 2^31 taps in one window, or that many marker lines.
- A note is modelled as its sequence of Unicode code points (Dafny `char`), where Java holds UTF-16 code units: a lone surrogate cannot be represented, and a supplementary character is one `char` where Java has two. No decision of the core changes with this: no line separator, `'-'` or `'\n'` is a surrogate, and a line of length > 2 that starts with "--" has a non-empty rest either way.
- Keyboard geometry (`TypedValue.applyDimension`, `getWindowVisibleDisplayFrame`; 273-275): the height difference and the estimated keyboard height are integer parameters.
