/** The lookup table of the UTF-8 automaton, entry by entry, and what its three parts say. */
module Utf8Table {

  const UTF8_ACCEPT: nat := 12
  const UTF8_REJECT: nat := 0

  // First part: the type of each byte, sixteen bytes a row.
  function ByteTypeRow(row: nat): (types: seq<nat>)
    requires row < 16
    ensures |types| == 16
  {
    match row
    case 0 => [0, 0, 0, 0, 0, 0, 0, 0, 0, 0, 0, 0, 0, 0, 0, 0]
    case 1 => [0, 0, 0, 0, 0, 0, 0, 0, 0, 0, 0, 0, 0, 0, 0, 0]
    case 2 => [0, 0, 0, 0, 0, 0, 0, 0, 0, 0, 0, 0, 0, 0, 0, 0]
    case 3 => [0, 0, 0, 0, 0, 0, 0, 0, 0, 0, 0, 0, 0, 0, 0, 0]
    case 4 => [0, 0, 0, 0, 0, 0, 0, 0, 0, 0, 0, 0, 0, 0, 0, 0]
    case 5 => [0, 0, 0, 0, 0, 0, 0, 0, 0, 0, 0, 0, 0, 0, 0, 0]
    case 6 => [0, 0, 0, 0, 0, 0, 0, 0, 0, 0, 0, 0, 0, 0, 0, 0]
    case 7 => [0, 0, 0, 0, 0, 0, 0, 0, 0, 0, 0, 0, 0, 0, 0, 0]
    case 8 => [1, 1, 1, 1, 1, 1, 1, 1, 1, 1, 1, 1, 1, 1, 1, 1]
    case 9 => [2, 2, 2, 2, 2, 2, 2, 2, 2, 2, 2, 2, 2, 2, 2, 2]
    case 10 => [3, 3, 3, 3, 3, 3, 3, 3, 3, 3, 3, 3, 3, 3, 3, 3]
    case 11 => [3, 3, 3, 3, 3, 3, 3, 3, 3, 3, 3, 3, 3, 3, 3, 3]
    case 12 => [4, 4, 5, 5, 5, 5, 5, 5, 5, 5, 5, 5, 5, 5, 5, 5]
    case 13 => [5, 5, 5, 5, 5, 5, 5, 5, 5, 5, 5, 5, 5, 5, 5, 5]
    case 14 => [6, 7, 7, 7, 7, 7, 7, 7, 7, 7, 7, 7, 7, 8, 7, 7]
    case _ => [10, 9, 9, 9, 11, 4, 4, 4, 4, 4, 4, 4, 4, 4, 4, 4]
  }

  // Second part: the next state, one row a state and one column a byte type.
  function TransitionRow(row: nat): (states: seq<nat>)
    requires row < 9
    ensures |states| == 12
  {
    match row
    case 0 => [0, 0, 0, 0, 0, 0, 0, 0, 0, 0, 0, 0]
    case 1 => [12, 0, 0, 0, 0, 24, 36, 48, 60, 72, 84, 96]
    case 2 => [0, 12, 12, 12, 0, 0, 0, 0, 0, 0, 0, 0]
    case 3 => [0, 0, 0, 24, 0, 0, 0, 0, 0, 0, 0, 0]
    case 4 => [0, 24, 24, 24, 0, 0, 0, 0, 0, 0, 0, 0]
    case 5 => [0, 24, 24, 0, 0, 0, 0, 0, 0, 0, 0, 0]
    case 6 => [0, 48, 48, 48, 0, 0, 0, 0, 0, 0, 0, 0]
    case 7 => [0, 0, 48, 48, 0, 0, 0, 0, 0, 0, 0, 0]
    case _ => [0, 48, 0, 0, 0, 0, 0, 0, 0, 0, 0, 0]
  }

  // Third part: the mask that keeps the payload bits of a byte of each type.
  const MASK_ROW: seq<nat> :=
    [0x7f, 0x3f, 0x3f, 0x3f, 0x00, 0x1f, 0x0f, 0x0f, 0x0f, 0x07, 0x07, 0x07]

  function Entry(i: nat): nat
    requires i < 376
  {
    if i < 256 then ByteTypeRow(i / 16)[i % 16]
    else if i < 364 then TransitionRow((i - 256) / 12)[(i - 256) % 12]
    else MASK_ROW[i - 364]
  }

  /** The array the decoder indexes: the three parts one after the other. */
  function Utf8Data(): (data: seq<nat>)
    ensures |data| == 376
  {
    seq(376, i requires 0 <= i < 376 => Entry(i))
  }

  /** The byte types by range: what the first 256 entries amount to. */
  function ByteType(b: nat): (t: nat)
    requires b < 256
    ensures t < 12
  {
    if b < 0x80 then 0
    else if b < 0x90 then 1
    else if b < 0xA0 then 2
    else if b < 0xC0 then 3
    else if b < 0xC2 then 4
    else if b < 0xE0 then 5
    else if b == 0xE0 then 6
    else if b == 0xED then 8
    else if b < 0xF0 then 7
    else if b == 0xF0 then 10
    else if b < 0xF4 then 9
    else if b == 0xF4 then 11
    else 4
  }

  /** The rows of the transition part: states are multiples of twelve up to 96. */
  predicate IsState(state: nat) {
    state % 12 == 0 && state <= 96
  }

  /** The transition relation by case. */
  function Transition(state: nat, t: nat): (next: nat)
    requires t < 12
    ensures IsState(next)
  {
    match state
    case 12 => if t == 0 then 12 else if 5 <= t then 12 * (t - 3) else 0
    case 24 => if 1 <= t <= 3 then 12 else 0
    case 36 => if t == 3 then 24 else 0
    case 48 => if 1 <= t <= 3 then 24 else 0
    case 60 => if 1 <= t <= 2 then 24 else 0
    case 72 => if 1 <= t <= 3 then 48 else 0
    case 84 => if 2 <= t <= 3 then 48 else 0
    case 96 => if t == 1 then 48 else 0
    case _ => 0
  }

  function Mask(t: nat): nat
    requires t < 12
  {
    if t == 0 then 0x7f
    else if t <= 3 then 0x3f
    else if t == 4 then 0
    else if t == 5 then 0x1f
    else if t <= 8 then 0x0f
    else 0x07
  }

  lemma ByteTypeRows(row: nat, k: nat)
    requires row < 16 && k < 16
    ensures ByteTypeRow(row)[k] == ByteType(16 * row + k)
  {
    if 12 <= row {
      LeadByteRows(row, k);
    }
  }

  lemma LeadByteRows(row: nat, k: nat)
    requires 12 <= row < 16 && k < 16
    ensures ByteTypeRow(row)[k] == ByteType(16 * row + k)
  {
  }

  lemma TransitionRows(row: nat, t: nat)
    requires row < 9 && t < 12
    ensures TransitionRow(row)[t] == Transition(12 * row, t)
  {
  }

  lemma TypeLookup(b: nat)
    requires b < 0x100
    ensures b < |Utf8Data()| == 376 && Utf8Data()[b] == ByteType(b)
  {
    ByteTypeRows(b / 16, b % 16);
  }

  /** Every lookup the decoder makes stays inside the 376 entries and means what the cases above say. */
  lemma TransitionLookup(state: nat, t: nat)
    requires IsState(state) && t < 12
    ensures 256 + state + t < |Utf8Data()| == 376
    ensures Utf8Data()[256 + state + t] == Transition(state, t)
  {
    var row := state / 12;
    assert (256 + state + t - 256) / 12 == row && (256 + state + t - 256) % 12 == t;
    assert Utf8Data()[256 + state + t] == Entry(256 + state + t) == TransitionRow(row)[t];
    TransitionRows(row, t);
  }

  lemma MaskLookup(t: nat)
    requires t < 12
    ensures 364 + t < |Utf8Data()| == 376
    ensures Utf8Data()[364 + t] == Mask(t)
  {
    assert Utf8Data()[364 + t] == MASK_ROW[t];
  }
}
