/** The words a client sends to its interface (Common/Event.h). */
module Text {
  import opened Bytes
  import opened Wire

  type Word = seq<byte>
  type Line = seq<Word>

  predicate IsAscii(s: string) {
    forall i :: 0 <= i < |s| ==> s[i] < 128 as char
  }

  function Ascii(s: string): (w: Word)
    requires IsAscii(s)
    ensures |w| == |s|
  {
    seq(|s|, i requires 0 <= i < |s| => s[i] as int)
  }

  function Digit(n: nat): byte
    requires n < 10
  {
    48 + n
  }

  /** std::to_string of an unsigned number. */
  function Decimal(n: nat): (w: Word)
    ensures w != []
  {
    if n < 10 then [Digit(n)] else Decimal(n / 10) + [Digit(n % 10)]
  }

  /** The words of one message, without the end of line. The player number indexes the name list unchecked;
      past its end there is nothing to print. */
  function Stringify(data: EventData, players: seq<Name>): Option<Line> {
    match data
    case NewGame(maxx, maxy, names) => Some([Ascii("NEW_GAME"), Decimal(maxx), Decimal(maxy)] + names)
    case Pixel(player, x, y) =>
      if player < |players| then Some([Ascii("PIXEL"), Decimal(x), Decimal(y), players[player]]) else None
    case Eliminated(player) =>
      if player < |players| then Some([Ascii("PLAYER_ELIMINATED"), players[player]]) else None
    case GameOver => Some([])
  }

  const SPACE: byte := 32
  const NEWLINE: byte := 10

  /** Position of the first newline, the length of s if there is none. */
  function Newline(s: seq<byte>): (k: nat)
    ensures k <= |s| && (k < |s| ==> s[k] == NEWLINE)
    ensures forall i :: 0 <= i < k ==> s[i] != NEWLINE
  {
    if s == [] || s[0] == NEWLINE then 0 else 1 + Newline(s[1..])
  }

  /** Each word followed by a space, as the words are packed. */
  function Spaced(line: Line): seq<byte> {
    if line == [] then [] else line[0] + [SPACE] + Spaced(line[1..])
  }

  /** One message as the interface reads it. */
  function LineBytes(line: Line): seq<byte>
    requires line != []
  {
    if |line| == 1 then line[0] + [NEWLINE] else line[0] + [SPACE] + LineBytes(line[1..])
  }

  /** Marking the end of the message turns the last space into a newline. */
  lemma {:induction false} LineBytesFromSpaced(line: Line)
    requires line != []
    ensures Spaced(line) != [] && Spaced(line)[|Spaced(line)| - 1] == SPACE
    ensures LineBytes(line) == Spaced(line)[..|Spaced(line)| - 1] + [NEWLINE]
    decreases |line|
  {
    var first := line[0] + [SPACE];
    if |line| == 1 {
      assert line[1..] == [];
      assert Spaced(line) == first + [];
    } else {
      LineBytesFromSpaced(line[1..]);
      var rest := Spaced(line[1..]);
      assert Spaced(line) == first + rest;
      assert (first + rest)[..|first| + |rest| - 1] == first + rest[..|rest| - 1];
    }
  }

  lemma {:induction false} SpacedNext(line: Line, i: nat)
    requires i < |line|
    ensures Spaced(line[..i + 1]) == Spaced(line[..i]) + line[i] + [SPACE]
    decreases i
  {
    if i == 0 {
      var one: Line := line[..1];
      assert one[0] == line[0] && one[1..] == line[..0];
      assert Spaced(one) == line[0] + [SPACE] + Spaced(one[1..]);
      assert line[0] + [SPACE] + [] == [] + line[0] + [SPACE];
    } else {
      assert line[..i + 1][1..] == line[1..][..i] && line[..i][1..] == line[1..][..i - 1];
      SpacedNext(line[1..], i - 1);
      assert line[0] + [SPACE] + (Spaced(line[1..][..i - 1]) + line[i] + [SPACE])
             == line[0] + [SPACE] + Spaced(line[1..][..i - 1]) + line[i] + [SPACE];
    }
  }

  function Pow10(n: nat): nat {
    if n == 0 then 1 else 10 * Pow10(n - 1)
  }

  lemma {:induction false} DecimalLength(n: nat, digits: nat)
    requires n < Pow10(digits) && digits > 0
    ensures |Decimal(n)| <= digits
    decreases digits
  {
    if n >= 10 {
      DecimalLength(n / 10, digits - 1);
    }
  }

  /** No word of a message is longer than 20 characters if no name is; so none is too long for a send buffer of 256. */
  lemma WordsAreShort(data: EventData, players: seq<Name>)
    requires forall i :: 0 <= i < |players| ==> |players[i]| <= 20
    requires data.NewGame? ==> forall i :: 0 <= i < |data.players| ==> |data.players[i]| <= 20
    ensures var line := Stringify(data, players);
            line.Some? ==> forall i :: 0 <= i < |line.value| ==> |line.value[i]| <= 20
  {
    assert Pow10(10) == 10_000_000_000 by {
      assert Pow10(5) == 100_000;
    }
    match data
    case NewGame(maxx, maxy, names) =>
      DecimalLength(maxx, 10);
      DecimalLength(maxy, 10);
      var line: Line := [Ascii("NEW_GAME"), Decimal(maxx), Decimal(maxy)] + names;
      forall i | 0 <= i < |line| ensures |line[i]| <= 20 {
        if i >= 3 {
          assert line[i] == names[i - 3];
        }
      }
    case Pixel(_, x, y) =>
      DecimalLength(x, 10);
      DecimalLength(y, 10);
    case _ =>
  }
}
