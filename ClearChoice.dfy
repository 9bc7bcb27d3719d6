/**
 * The remembered answer to "clear the notepad?": a stored integer, 0 when
 * unset, 1 for always ignore, 2 for always clear. It decides what a
 * quintuple tap does, and the confirmation dialog sets it.
 */
module ClearChoice {

  const UNSET := 0
  const ALWAYS_IGNORE := 1
  const ALWAYS_CLEAR := 2

  /** What a quintuple tap does: clear the note, show the dialog, or nothing. */
  datatype Reaction = ClearNow | AskUser | DoNothing

  /** The dispatch on the stored choice; a missing entry reads as UNSET, any other value does nothing. */
  function React(pref: int): Reaction {
    if pref == ALWAYS_CLEAR then ClearNow else if pref == UNSET then AskUser else DoNothing
  }

  /** How the dialog is left: a button, with the "remember" box ticked or not, or closed without a button. */
  datatype Answer = Yes(remember: bool) | No(remember: bool) | Dismissed

  /** The stored choice after the dialog is left with answer a. */
  function StoredAfter(pref: int, a: Answer): int {
    match a
    case Yes(remember) => if remember then ALWAYS_CLEAR else pref
    case No(remember) => if remember then ALWAYS_IGNORE else pref
    case Dismissed => pref
  }

  /** One quintuple tap: whether the note is cleared, whether the dialog was shown, the choice stored afterwards. */
  datatype Outcome = Outcome(cleared: bool, asked: bool, stored: int)

  /** A quintuple tap with stored choice pref, the dialog (if it shows) being left with answer a. */
  function Episode(pref: int, a: Answer): (o: Outcome)
    ensures o.asked <==> pref == UNSET
    ensures o.cleared <==> pref == ALWAYS_CLEAR || (pref == UNSET && a.Yes?)
    ensures o.stored != pref ==> pref == UNSET && a != Dismissed && a.remember
    ensures o.stored == pref || o.stored == (if a.Yes? then ALWAYS_CLEAR else ALWAYS_IGNORE)
  {
    match React(pref)
    case ClearNow => Outcome(true, false, pref)
    case DoNothing => Outcome(false, false, pref)
    case AskUser => Outcome(a.Yes?, true, StoredAfter(pref, a))
  }

  /** The stored choice after a series of quintuple taps, the i-th dialog (if shown) left with answers[i]. */
  function StoredAfterAll(pref: int, answers: seq<Answer>): int
    decreases |answers|
  {
    if answers == [] then pref else StoredAfterAll(Episode(pref, answers[0]).stored, answers[1..])
  }

  /** The number of those taps that showed the dialog. */
  function DialogsShown(pref: int, answers: seq<Answer>): nat
    decreases |answers|
  {
    if answers == [] then 0
    else (if Episode(pref, answers[0]).asked then 1 else 0) + DialogsShown(Episode(pref, answers[0]).stored, answers[1..])
  }

  /**
   * Once a choice other than UNSET is stored, it never changes again and no
   * later quintuple tap shows the dialog.
   */
  lemma {:induction false} SettledChoiceStays(pref: int, answers: seq<Answer>)
    requires pref != UNSET
    ensures StoredAfterAll(pref, answers) == pref
    ensures DialogsShown(pref, answers) == 0
    decreases |answers|
  {
    if answers != [] {
      SettledChoiceStays(pref, answers[1..]);
    }
  }

  /**
   * Ticking "remember" makes every later quintuple tap skip the dialog: after
   * YES each clears the note, after NO none does.
   */
  lemma {:induction false} RememberSkipsDialog(a: Answer, later: seq<Answer>)
    requires a != Dismissed && a.remember
    ensures DialogsShown(UNSET, [a] + later) == 1
    ensures StoredAfterAll(UNSET, [a] + later) == (if a.Yes? then ALWAYS_CLEAR else ALWAYS_IGNORE)
    ensures forall b :: Episode(StoredAfterAll(UNSET, [a] + later), b).cleared == a.Yes?
  {
    var stored := Episode(UNSET, a).stored;
    assert ([a] + later)[1..] == later;
    SettledChoiceStays(stored, later);
  }
}
