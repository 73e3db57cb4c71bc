/** Text on the wire: byte strings that are well-formed UTF-8 (section 3.9 of the Unicode standard). */
module Text {
  import opened Bytes

  predicate Continues(b: byte, low: byte, high: byte) {
    low <= b <= high
  }

  predicate Tail(b: bytes, from: nat, count: nat) {
    from + count <= |b| && forall k :: from <= k < from + count ==> Continues(b[k], 0x80, 0xBF)
  }

  /** The length of the well-formed character a non-empty byte string starts with; 0 if there is none. */
  function CharLength(b: bytes): (n: nat)
    requires b != []
    ensures n <= |b|
  {
    var lead := b[0];
    if lead <= 0x7F then 1
    else if |b| < 2 then 0
    else
      var second := b[1];
      if 0xC2 <= lead <= 0xDF && Continues(second, 0x80, 0xBF) then 2
      else if lead == 0xE0 && Continues(second, 0xA0, 0xBF) && Tail(b, 2, 1) then 3
      else if lead == 0xED && Continues(second, 0x80, 0x9F) && Tail(b, 2, 1) then 3
      else if 0xE1 <= lead <= 0xEF && lead != 0xED && Continues(second, 0x80, 0xBF) && Tail(b, 2, 1) then 3
      else if lead == 0xF0 && Continues(second, 0x90, 0xBF) && Tail(b, 2, 2) then 4
      else if 0xF1 <= lead <= 0xF3 && Continues(second, 0x80, 0xBF) && Tail(b, 2, 2) then 4
      else if lead == 0xF4 && Continues(second, 0x80, 0x8F) && Tail(b, 2, 2) then 4
      else 0
  }

  predicate Utf8(b: bytes) {
    b == [] || (CharLength(b) > 0 && Utf8(b[CharLength(b)..]))
  }

  type text = b: bytes | Utf8(b) witness []
}
