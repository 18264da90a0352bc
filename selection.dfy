/** How the selection operators combine the faces that match a colour with
    the selection already present, under the Shift and Ctrl modifiers.
 */
module Selection {

  /** The modifier keys an operator acts under. */
  datatype Modifiers = Modifiers(shift: bool, ctrl: bool)

  /** Neither key held; also what Select This Color uses when it runs without
      having been invoked from an event. */
  const NoModifiers := Modifiers(false, false)

  /** The new selection flag of one face: a matching face is deselected under
      Ctrl and selected otherwise; a face that does not match is deselected
      when no modifier is held and keeps its flag otherwise. */
  function NextFlag(was: bool, isMatch: bool, m: Modifiers): (now: bool)
    // Ctrl: selected afterwards iff selected before and not a match
    ensures m.ctrl ==> (now <==> was && !isMatch)
    // Shift alone: selected afterwards iff selected before or a match
    ensures !m.ctrl && m.shift ==> (now <==> was || isMatch)
    // no modifier: selected afterwards iff a match
    ensures !m.ctrl && !m.shift ==> now == isMatch
  {
    if isMatch then
      if m.ctrl then false else true
    else if !m.shift && !m.ctrl then false
    else was
  }

  /** The selection after one pass of a selection operator. */
  function After(was: seq<bool>, matches: seq<bool>, m: Modifiers): (now: seq<bool>)
    requires |matches| == |was|
    ensures |now| == |was|
  {
    seq(|was|, i requires 0 <= i < |was| => NextFlag(was[i], matches[i], m))
  }

  /** The indices of the faces a flag sequence marks. */
  function Marked(flags: seq<bool>): set<nat>
  {
    set i: nat | i < |flags| && flags[i]
  }

  /** The modifier rules as set algebra over face indices: Ctrl removes the
      matches from the selection (whatever Shift says), Shift alone adds them,
      and no modifier replaces the selection with them. */
  lemma AfterAsSets(was: seq<bool>, matches: seq<bool>, m: Modifiers)
    requires |matches| == |was|
    ensures Marked(After(was, matches, m)) ==
            if m.ctrl then Marked(was) - Marked(matches)
            else if m.shift then Marked(was) + Marked(matches)
            else Marked(matches)
  {
    var now := After(was, matches, m);
    var expected :=
      if m.ctrl then Marked(was) - Marked(matches)
      else if m.shift then Marked(was) + Marked(matches)
      else Marked(matches);
    forall i: nat ensures i in Marked(now) <==> i in expected {
      if i < |was| {
        assert now[i] == NextFlag(was[i], matches[i], m);
      }
    }
  }

  /** Ctrl takes precedence: holding Shift as well changes nothing. */
  lemma CtrlWinsOverShift(was: seq<bool>, matches: seq<bool>)
    requires |matches| == |was|
    ensures After(was, matches, Modifiers(true, true)) == After(was, matches, Modifiers(false, true))
  {
  }

  /** Without modifiers the selection becomes exactly the matches, whatever it
      was before. */
  lemma PlainReplaces(was: seq<bool>, matches: seq<bool>)
    requires |matches| == |was|
    ensures After(was, matches, NoModifiers) == matches
  {
  }

  /** The modifiers Pick acts under: the keys held at the click when Shift or
      Ctrl is held then, and the ones captured when the operator was invoked
      otherwise. */
  function Resolve(click: Modifiers, invoked: Modifiers): Modifiers
  {
    Modifiers(if click.shift || click.ctrl then click.shift else invoked.shift,
              if click.shift || click.ctrl then click.ctrl else invoked.ctrl)
  }

  /** The modifiers held at the click override the ones captured at invoke
      exactly when one of them is held; otherwise the invoke-time keys apply
      unchanged. */
  lemma ResolveOverride(click: Modifiers, invoked: Modifiers)
    ensures (click.shift || click.ctrl) ==> Resolve(click, invoked) == click
    ensures !(click.shift || click.ctrl) ==> Resolve(click, invoked) == invoked
    ensures Resolve(click, invoked) == click || Resolve(click, invoked) == invoked
  {
  }
}
