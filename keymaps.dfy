/**
 * Key values (src/editor/keymaps.rs): the modifier flags held with a key
 * and the key press a key chain is keyed by, with their hand-written
 * equality.
 */
module Keymaps {

  datatype Modifiers = Modifiers(control: bool, alt: bool, logo: bool)

  /** `Modifiers::with_none`: no flag set. */
  function WithNone(): (m: Modifiers)
    ensures !m.control && !m.alt && !m.logo
  {
    Modifiers(false, false, false)
  }

  /** `Modifiers::with_control`: only `control` set. */
  function WithControl(): (m: Modifiers)
    ensures m.control && !m.alt && !m.logo
  {
    Modifiers(true, false, false)
  }

  /** `Modifiers::with_alt`: only `alt` set. */
  function WithAlt(): (m: Modifiers)
    ensures !m.control && m.alt && !m.logo
  {
    Modifiers(false, true, false)
  }

  /** `Modifiers::with_logo`: only `logo` set. */
  function WithLogo(): (m: Modifiers)
    ensures !m.control && !m.alt && m.logo
  {
    Modifiers(false, false, true)
  }

  /** `Default for Modifiers`: the same value as `with_none`, no flag set. */
  function DefaultModifiers(): (m: Modifiers)
    ensures !m.control && !m.alt && !m.logo
  {
    WithNone()
  }

  /** How many of the three flags are set. */
  function FlagCount(m: Modifiers): (n: nat)
    ensures n <= 3
    ensures n == 0 <==> m == WithNone()
  {
    (if m.control then 1 else 0) + (if m.alt then 1 else 0) + (if m.logo then 1 else 0)
  }

  /** The single-flag constructors give exactly the three values with one
      flag set, and no two of them agree. */
  lemma SingleFlagConstructors(m: Modifiers)
    ensures FlagCount(m) == 1 <==> m in {WithControl(), WithAlt(), WithLogo()}
    ensures WithControl() != WithAlt() && WithAlt() != WithLogo() && WithControl() != WithLogo()
  {
  }

  /** `PartialEq for Modifiers`: flag by flag, the same as structural equality. */
  function ModifiersEq(a: Modifiers, b: Modifiers): (r: bool)
    ensures r <==> a == b
  {
    a.control == b.control && a.alt == b.alt && a.logo == b.logo
  }

  /** A key together with the modifier flags held with it. */
  datatype KeyPress = KeyPress(key: char, modifiers: Modifiers)

  /** `From<char> for KeyPress`: the key with no modifiers. */
  function FromChar(key: char): (k: KeyPress)
    ensures k.key == key && FlagCount(k.modifiers) == 0
  {
    KeyPress(key, WithNone())
  }

  /** `PartialEq for KeyPress`: same key and equal modifiers, the same as
      structural equality. */
  function KeyPressEq(a: KeyPress, b: KeyPress): (r: bool)
    ensures r <==> a == b
  {
    a.key == b.key && ModifiersEq(a.modifiers, b.modifiers)
  }

  /** The hand-written equality is an equivalence relation, as `Eq` demands. */
  lemma KeyPressEqEquivalence(a: KeyPress, b: KeyPress, c: KeyPress)
    ensures KeyPressEq(a, a)
    ensures KeyPressEq(a, b) ==> KeyPressEq(b, a)
    ensures KeyPressEq(a, b) && KeyPressEq(b, c) ==> KeyPressEq(a, c)
  {
  }

  /** A key press equals the conversion of a character exactly when it has
      that key and no modifier, so different characters convert to different
      key presses. */
  lemma FromCharMatches(c: char, k: KeyPress)
    ensures KeyPressEq(FromChar(c), k) <==> k.key == c && FlagCount(k.modifiers) == 0
  {
  }
}
