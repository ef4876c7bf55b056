/**
 * Board coordinates as the player types them: a column letter 'a'..'h'
 * followed by a row digit '1'..'8', read byte by byte as Go reads a string.
 * The bot's move is printed back in the same notation.
 */
module Coordinates {
  import opened BoardModel

  /** A byte of the (already lower-cased, trimmed) input line. */
  newtype byte = x: int | 0 <= x < 256

  const LowerA: int := 97
  const DigitZero: int := 48
  const DigitOne: int := 49

  /**
   * strconv.Atoi of the one-character string made from byte c: the digit's
   * value for an ASCII digit, an error for anything else (a lone sign, a
   * letter, or a byte at or above 0x80, which becomes a two-byte rune).
   */
  function DigitValue(c: byte): Option<int> {
    if DigitZero <= c as int <= DigitZero + 9 then Some(c as int - DigitZero) else None
  }

  /**
   * parseCoord: a two-byte coordinate to its cell index. The column is the
   * byte difference s[0] - 'a', which wraps modulo 256 as Go's byte
   * arithmetic does, so no byte below 'a' gives a negative column.
   */
  function ParseCoord(s: seq<byte>): (r: Option<int>)
    ensures r.Some? ==> OnBoard(r.value)
  {
    if |s| != 2 then None
    else
      var col := (s[0] as int - LowerA) % 256;
      var row := DigitValue(s[1]);
      if row.None? || col < 0 || col > 7 || row.value < 1 || row.value > 8 then None
      else Some((row.value - 1) * 8 + col)
  }

  /** The bot's announcement "%c%d" of cell i: 'a' + column, then row + 1 as one digit. */
  function FormatCoord(i: int): seq<byte>
    requires OnBoard(i)
  {
    [(LowerA + i % 8) as byte, (DigitOne + i / 8) as byte]
  }

  /**
   * parseCoord accepts exactly the strings of length 2 whose first byte is
   * one of 'a'..'h' and whose second is one of '1'..'8', and then names the
   * cell in that column and row.
   */
  lemma ParseCoordAccepts(s: seq<byte>)
    ensures ParseCoord(s).Some? <==>
      |s| == 2 && LowerA <= s[0] as int <= LowerA + 7 && DigitOne <= s[1] as int <= DigitOne + 7
    ensures ParseCoord(s).Some? ==>
      && OnBoard(ParseCoord(s).value)
      && Col(ParseCoord(s).value) == s[0] as int - LowerA
      && Row(ParseCoord(s).value) == s[1] as int - DigitOne
  {
    if |s| == 2 && ParseCoord(s).Some? {
      var i := ParseCoord(s).value;
      var col := s[0] as int - LowerA;
      var row := s[1] as int - DigitOne;
      assert i == row * 8 + col;
    }
  }

  /** Printing a cell and parsing it back gives the same cell. */
  lemma ParseFormat(i: int)
    requires OnBoard(i)
    ensures ParseCoord(FormatCoord(i)) == Some(i)
  {
    assert i == (i / 8) * 8 + i % 8;
  }

  /** A parsed coordinate prints back as exactly the input: parsing is one-to-one. */
  lemma FormatParse(s: seq<byte>, i: int)
    requires ParseCoord(s) == Some(i)
    ensures FormatCoord(i) == s
  {
    ParseCoordAccepts(s);
    var t := FormatCoord(i);
    assert t[0] == s[0] && t[1] == s[1];
  }
}
