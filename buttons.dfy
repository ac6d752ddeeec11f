/**
 * Which command a pin-change interrupt sends: the six buttons sit on PORTB,
 * read active low, and are tested in a fixed order.
 */
module Buttons {
  import opened Bits
  import opened Nec

  /** A pin number within an 8-bit port. */
  type PinIndex = x: nat | x < 8

  /** PORTB pins of the buttons. */
  const MENU_PIN: PinIndex := 0   // PB0
  const LEFT_PIN: PinIndex := 1   // PB1
  const RIGHT_PIN: PinIndex := 2  // PB2
  const UP_PIN: PinIndex := 3     // PB3
  const DOWN_PIN: PinIndex := 4   // PB4
  const PLAY_PIN: PinIndex := 5   // PB5

  datatype Button = Button(pin: PinIndex, command: uint8)

  /** The order in which the interrupt handler tests the buttons. */
  const Priority: seq<Button> := [
    Button(MENU_PIN, MENU_COMMAND),
    Button(PLAY_PIN, PLAY_COMMAND),
    Button(RIGHT_PIN, RIGHT_COMMAND),
    Button(LEFT_PIN, LEFT_COMMAND),
    Button(UP_PIN, UP_COMMAND),
    Button(DOWN_PIN, DOWN_COMMAND)
  ]

  /** Buttons pull their pin to ground: a pressed button reads 0 in PINB. */
  predicate Pressed(pins: bv8, pin: PinIndex)
  {
    pins & (1 << pin) == 0
  }

  /**
   * The position in Priority of the first pressed button at or after i,
   * or |Priority| when none of them is pressed.
   */
  function FirstPressed(pins: bv8, i: nat): (k: nat)
    requires i <= |Priority|
    ensures i <= k <= |Priority|
    ensures k < |Priority| ==> Pressed(pins, Priority[k].pin)
    ensures forall j :: i <= j < k ==> !Pressed(pins, Priority[j].pin)
    decreases |Priority| - i
  {
    if i == |Priority| then i
    else if Pressed(pins, Priority[i].pin) then i
    else FirstPressed(pins, i + 1)
  }

  /** The command one interrupt sends for a snapshot of PINB, if any. */
  function Select(pins: bv8): Option<uint8>
  {
    var k := FirstPressed(pins, 0);
    if k < |Priority| then Some(Priority[k].command) else None
  }

  /**
   * Select picks the command of the highest-priority pressed button, and
   * picks none exactly when all six buttons read 1.
   */
  lemma SelectSpec(pins: bv8)
    ensures Select(pins).None? <==> forall j :: 0 <= j < |Priority| ==> !Pressed(pins, Priority[j].pin)
    ensures Select(pins).Some? ==>
      exists k :: (0 <= k < |Priority| && Pressed(pins, Priority[k].pin) &&
        Select(pins).value == Priority[k].command &&
        forall j :: 0 <= j < k ==> !Pressed(pins, Priority[j].pin))
  {
  }

  /** Any pressed button is either the one selected or has a pressed button ahead of it. */
  lemma SelectPrefersEarlier(pins: bv8, i: nat)
    requires i < |Priority| && Pressed(pins, Priority[i].pin)
    ensures Select(pins).Some?
    ensures FirstPressed(pins, 0) <= i
    ensures FirstPressed(pins, 0) == i <==> Select(pins) == Some(Priority[i].command)
  {
    var k := FirstPressed(pins, 0);
    if k != i {
      PriorityCommandsDistinct(k, i);
    }
  }

  /** The six buttons use six different pins and six different commands. */
  lemma PriorityCommandsDistinct(i: nat, j: nat)
    requires i < |Priority| && j < |Priority| && i != j
    ensures Priority[i].pin != Priority[j].pin
    ensures Priority[i].command != Priority[j].command
  {
  }

  /** The handler's chain of tests, menu, play, right, left, up, down, computes Select. */
  lemma {:induction false} SelectChain(pins: bv8)
    ensures Select(pins) ==
      if Pressed(pins, MENU_PIN) then Some(MENU_COMMAND)
      else if Pressed(pins, PLAY_PIN) then Some(PLAY_COMMAND)
      else if Pressed(pins, RIGHT_PIN) then Some(RIGHT_COMMAND)
      else if Pressed(pins, LEFT_PIN) then Some(LEFT_COMMAND)
      else if Pressed(pins, UP_PIN) then Some(UP_COMMAND)
      else if Pressed(pins, DOWN_PIN) then Some(DOWN_COMMAND)
      else None
  {
    assert FirstPressed(pins, 0) == (if Pressed(pins, MENU_PIN) then 0 else FirstPressed(pins, 1));
    assert FirstPressed(pins, 1) == (if Pressed(pins, PLAY_PIN) then 1 else FirstPressed(pins, 2));
    assert FirstPressed(pins, 2) == (if Pressed(pins, RIGHT_PIN) then 2 else FirstPressed(pins, 3));
    assert FirstPressed(pins, 3) == (if Pressed(pins, LEFT_PIN) then 3 else FirstPressed(pins, 4));
    assert FirstPressed(pins, 4) == (if Pressed(pins, UP_PIN) then 4 else FirstPressed(pins, 5));
    assert FirstPressed(pins, 5) == (if Pressed(pins, DOWN_PIN) then 5 else 6);
  }
}
