/**
  The activation-state filter of the ability list: three check boxes
  (active, blocked, not active) kept as one `uint8` bit mask.
 */
module ScreenFilter {

  /** The filter mask, a `uint8`. */
  type Mask = bv8

  /**
    The activation-state flags. Their values live in a header that is not
    part of this model; they are taken to be the distinct single bits the
    mask arithmetic presupposes.
   */
  const Active: bv8 := 1
  const Blocked: bv8 := 2
  const NoActive: bv8 := 4

  /** The mask the editor starts with: every state shown. */
  const InitialMask: Mask := Active | Blocked | NoActive

  /** The three states of a check box. */
  datatype CheckBoxState = Unchecked | Checked | Undetermined

  /** A value with exactly one bit set. */
  predicate IsFlag(flag: bv8)
  {
    flag == 1 || flag == 2 || flag == 4 || flag == 8 || flag == 16 || flag == 32 || flag == 64 || flag == 128
  }

  /**
    The mask after a filter check box reports `state` for `flag`: checking
    ORs the flag in, unchecking XORs it, an undetermined report changes
    nothing.
   */
  function UpdateMask(mask: Mask, state: CheckBoxState, flag: bv8): (m: Mask)
    ensures (m ^ mask) & !flag == 0
    ensures state == Checked ==> m & flag == flag
    ensures state == Undetermined ==> m == mask
    ensures state == Unchecked && IsFlag(flag) ==> (m & flag == 0 <==> mask & flag != 0)
  {
    if state == Unchecked then mask ^ flag
    else if state == Checked then mask | flag
    else mask
  }

  /** What a filter check box shows for `flag`. */
  function CheckBoxFor(mask: Mask, flag: bv8): (s: CheckBoxState)
    ensures s != Undetermined
    ensures s == Checked <==> mask & flag != 0
  {
    if mask & flag != 0 then Checked else Unchecked
  }

  /** Every check box starts out checked. */
  lemma InitialMaskChecksEveryState()
    ensures CheckBoxFor(InitialMask, Active) == Checked
    ensures CheckBoxFor(InitialMask, Blocked) == Checked
    ensures CheckBoxFor(InitialMask, NoActive) == Checked
    ensures InitialMask & !(Active | Blocked | NoActive) == 0
  {
  }

  /** Checking is idempotent. */
  lemma CheckIdempotent(mask: Mask, flag: bv8)
    ensures UpdateMask(UpdateMask(mask, Checked, flag), Checked, flag) == UpdateMask(mask, Checked, flag)
  {
  }

  /**
    The asymmetry: unchecking a flag that is already clear sets it, so the
    box then shows checked; two unchecks in a row restore the mask.
   */
  lemma UncheckClearFlagSetsIt(mask: Mask, flag: bv8)
    requires IsFlag(flag) && mask & flag == 0
    ensures CheckBoxFor(UpdateMask(mask, Unchecked, flag), flag) == Checked
    ensures UpdateMask(UpdateMask(mask, Unchecked, flag), Unchecked, flag) == mask
  {
  }

  /** Checking then unchecking restores the mask exactly when the flag was clear to begin with. */
  lemma CheckThenUncheckRestores(mask: Mask, flag: bv8)
    requires IsFlag(flag)
    ensures UpdateMask(UpdateMask(mask, Checked, flag), Unchecked, flag) == mask <==> mask & flag == 0
  {
  }

  /** The state a check box reports when clicked: the opposite of what it shows. */
  function Clicked(shown: CheckBoxState): CheckBoxState
  {
    if shown == Checked then Unchecked else Checked
  }

  /**
    Through the check box itself, unchecking is only ever reported for a set
    flag, so a click flips exactly that flag, and two clicks restore the
    mask.
   */
  lemma {:induction false} ClickTogglesFlag(mask: Mask, flag: bv8)
    requires IsFlag(flag)
    ensures var m := UpdateMask(mask, Clicked(CheckBoxFor(mask, flag)), flag);
      && m & !flag == mask & !flag
      && (m & flag != 0 <==> mask & flag == 0)
      && UpdateMask(m, Clicked(CheckBoxFor(m, flag)), flag) == mask
  {
    var m := UpdateMask(mask, Clicked(CheckBoxFor(mask, flag)), flag);
    if mask & flag != 0 {
      assert m == mask ^ flag;
      assert m & flag == 0;
      assert UpdateMask(m, Clicked(CheckBoxFor(m, flag)), flag) == m | flag;
    } else {
      assert m == mask | flag;
      assert m & flag != 0;
      assert UpdateMask(m, Clicked(CheckBoxFor(m, flag)), flag) == m ^ flag;
    }
  }
}
