// kernel/src/keyboard.rs: USB boot-keyboard reports with key repeat.
// `print!` is modelled as bytes appended to `printed`.

module Keyboard {
  import opened Common

  /** HID usage id to ASCII; 0 means "prints nothing". */
  const KEYCODE: seq<bv8> := [
    0x00, 0x00, 0x00, 0x00, 0x61, 0x62, 0x63, 0x64,
    0x65, 0x66, 0x67, 0x68, 0x69, 0x6a, 0x6b, 0x6c,
    0x6d, 0x6e, 0x6f, 0x70, 0x71, 0x72, 0x73, 0x74,
    0x75, 0x76, 0x77, 0x78, 0x79, 0x7a, 0x31, 0x32,
    0x33, 0x34, 0x35, 0x36, 0x37, 0x38, 0x39, 0x30,
    0x0a, 0x1b, 0x7f, 0x09, 0x20, 0x2d, 0x3d, 0x5b,
    0x5d, 0x5c, 0x23, 0x3b, 0x27, 0x60, 0x2c, 0x2e,
    0x2f, 0x00, 0x00, 0x00, 0x00, 0x00, 0x00, 0x00,
    0x00, 0x00, 0x00, 0x00, 0x00, 0x00, 0x00, 0x00,
    0x00, 0x00, 0x00, 0x00, 0x00, 0x00, 0x00, 0x00,
    0x00, 0x00, 0x00, 0x00, 0x2f, 0x2a, 0x2d, 0x2b,
    0x0a, 0x31, 0x32, 0x33, 0x34, 0x35, 0x36, 0x37,
    0x38, 0x39, 0x30, 0x2e, 0x5c, 0x00, 0x00, 0x3d
  ]

  /** Where `iter().rev().find(|v| v != 0)` stops among the first `n` entries. */
  function LastNonZeroBelow(s: seq<bv8>, n: nat): (k: Option<nat>)
    requires n <= |s|
    ensures k.None? ==> forall j :: 0 <= j < n ==> s[j] == 0
    ensures k.Some? ==> k.value < n && s[k.value] != 0 && forall j :: k.value < j < n ==> s[j] == 0
  {
    if n == 0 then None
    else if s[n - 1] != 0 then Some(n - 1)
    else LastNonZeroBelow(s, n - 1)
  }

  /** The last non-zero usage id of a report (`iter().rev().find(|v| v != 0)`). */
  function LastNonZero(s: seq<bv8>): (r: Option<bv8>)
    ensures r.None? <==> forall i :: 0 <= i < |s| ==> s[i] == 0
    ensures r.Some? ==>
      r.value != 0 && exists i :: 0 <= i < |s| && s[i] == r.value && forall j :: i < j < |s| ==> s[j] == 0
  {
    var k := LastNonZeroBelow(s, |s|);
    if k.None? then None else Some(s[k.value])
  }

  /** Number of non-zero entries (`filter(|x| x != 0).count()`). */
  function CountNonZero(s: seq<bv8>): (n: nat)
    ensures n <= |s|
    ensures n == 0 <==> forall i :: 0 <= i < |s| ==> s[i] == 0
  {
    if |s| == 0 then 0 else CountNonZero(s[..|s| - 1]) + (if s[|s| - 1] != 0 then 1 else 0)
  }

  /**
   * The KEYCODE entry of the last pressed key, or None when no key is
   * pressed or the usage id is outside the table (`KEYCODE.get(..)?`).
   */
  function KeyFor(pressing: seq<bv8>): (r: Option<bv8>)
    ensures r.Some? <==> LastNonZero(pressing).Some? && (LastNonZero(pressing).value as int) < |KEYCODE|
    ensures r.Some? ==> r.value == KEYCODE[LastNonZero(pressing).value as int]
  {
    match LastNonZero(pressing)
    case None => None
    case Some(k) => if (k as int) < |KEYCODE| then Some(KEYCODE[k as int]) else None
  }

  /** What `print!` emits for a looked-up key: nothing for a 0 entry. */
  function Echo(key: Option<bv8>): (out: seq<bv8>)
    ensures |out| <= 1
    ensures |out| == 1 <==> key.Some? && key.value != 0
  {
    if key.Some? && key.value != 0 then [key.value] else []
  }

  lemma KeycodeLength()
    ensures |KEYCODE| == 104
  {
  }

  /** The global `STATE` and the console output of the handler. */
  class KeyboardState {
    var state: seq<bv8>
    var printed: seq<bv8>

    constructor ()
      ensures state == [0, 0, 0, 0, 0, 0] && printed == []
    {
      state := [0, 0, 0, 0, 0, 0];
      printed := [];
    }

    /** `keyboard_handler_internal`. */
    method Handle(modifire: bv8, pressing: seq<bv8>) returns (r: Option<()>)
      requires |pressing| == 6
      modifies this
      // an unchanged report repeats its last key and keeps STATE
      ensures old(state) == pressing ==>
        r == (if KeyFor(pressing).Some? then Some(()) else None) &&
        state == old(state) && printed == old(printed) + Echo(KeyFor(pressing))
      // a changed report prints only when more keys are down than before
      ensures old(state) != pressing ==> r == None
      ensures old(state) != pressing && CountNonZero(pressing) > CountNonZero(old(state)) ==>
        printed == old(printed) + Echo(KeyFor(pressing)) &&
        state == (if KeyFor(pressing).Some? then pressing else old(state))
      ensures old(state) != pressing && CountNonZero(pressing) <= CountNonZero(old(state)) ==>
        printed == old(printed) && state == pressing
    {
      if state == pressing {
        var key := KeyFor(pressing);
        printed := printed + Echo(key);
        r := if key.Some? then Some(()) else None;
      } else {
        var pressingLen := CountNonZero(pressing);
        var stateLen := CountNonZero(state);
        if pressingLen > stateLen {
          var key := KeyFor(pressing);
          if key.None? {
            return None;
          }
          printed := printed + Echo(key);
        }
        state := pressing;
        r := None;
      }
    }
  }
}
