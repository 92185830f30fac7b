/** The text side of the interface: GUI/gui2.c takes a line apart into words and GUI/cmd.c obeys it. */
module Gui {
  import opened Bytes
  import opened Wire
  import opened Text

  const MAX_TOKENS: nat := 30
  const MAX_PLAYER: nat := 20
  const NAME_LENGTH: nat := 64    // as far as names are compared
  const INT_LIMIT: nat := 0x8000_0000

  // ---------- words of a line ----------

  predicate Delimiter(b: byte) {
    b == 32 || b == 9 || b == 10 || b == 13
  }

  /** g_strsplit_set: the pieces between delimiters, empty ones too. */
  function Split(s: seq<byte>): (r: seq<Word>)
    ensures r != []
  {
    if s == [] then [[]]
    else
      var rest := Split(s[1..]);
      if Delimiter(s[0]) then [[]] + rest else [[s[0]] + rest[0]] + rest[1..]
  }

  lemma LongerFirst(b: byte, first: seq<Word>, more: seq<Word>)
    requires first != []
    ensures [[b] + (first + more)[0]] + (first + more)[1..] == [[b] + first[0]] + first[1..] + more
  {
    assert (first + more)[1..] == first[1..] + more;
  }

  /** Lines are taken apart at each space, tab, newline and carriage return, */
  lemma {:induction false} SplitThere(s: seq<byte>, b: byte, rest: seq<byte>)
    requires b == 9 || b == 10 || b == 13 || b == 32
    ensures Split(s + [b] + rest) == Split(s) + Split(rest)
    decreases |s|
  {
    var all := s + [b] + rest;
    if s == [] {
      assert all[1..] == rest;
    } else {
      SplitThere(s[1..], b, rest);
      LongerFirst(s[0], Split(s[1..]), Split(rest));
      Regroup([[]], Split(s[1..]), Split(rest));
      assert all[0] == s[0] && all[1..] == s[1..] + [b] + rest;
    }
  }

  /** and nowhere else. */
  lemma {:induction false} SplitNowhere(s: seq<byte>)
    requires 9 !in s && 10 !in s && 13 !in s && 32 !in s
    ensures Split(s) == [s]
  {
    if s != [] {
      SplitNowhere(s[1..]);
      assert s[0] in s;
      assert [s[0]] + s[1..] == s;
    }
  }

  function NonEmpty(tokens: seq<Word>): seq<Word>
    decreases |tokens|
  {
    if tokens == [] then []
    else NonEmpty(tokens[..|tokens| - 1]) + if tokens[|tokens| - 1] == [] then [] else [tokens[|tokens| - 1]]
  }

  /** A word that the splitting leaves in one piece. */
  predicate Plain(w: Word) {
    w != [] && forall i :: 0 <= i < |w| ==> 33 <= w[i] <= 126
  }

  lemma {:induction false} SplitWord(w: Word, b: byte, rest: seq<byte>)
    requires Delimiter(b) && forall i :: 0 <= i < |w| ==> 33 <= w[i] <= 126
    ensures Split(w + [b] + rest) == [w] + Split(rest)
    decreases |w|
  {
    var s := w + [b] + rest;
    if w == [] {
      assert s[1..] == rest;
    } else {
      assert s[1..] == w[1..] + [b] + rest;
      SplitWord(w[1..], b, rest);
      assert [w[0]] + w[1..] == w;
      assert ([w[1..]] + Split(rest))[1..] == Split(rest);
    }
  }

  lemma NonEmptyLast(front: seq<Word>, last: Word)
    ensures NonEmpty(front + [last]) == NonEmpty(front) + if last == [] then [] else [last]
  {
    assert (front + [last])[..|front|] == front;
  }

  lemma {:induction false} NonEmptyCons(w: Word, rest: seq<Word>)
    ensures NonEmpty([w] + rest) == (if w == [] then [] else [w]) + NonEmpty(rest)
    decreases |rest|
  {
    if rest == [] {
      NonEmptyLast([], w);
      assert [w] + rest == [] + [w];
    } else {
      var front, last := rest[..|rest| - 1], rest[|rest| - 1];
      NonEmptyCons(w, front);
      NonEmptyLast(front, last);
      NonEmptyLast([w] + front, last);
      assert rest == front + [last] && [w] + rest == ([w] + front) + [last];
      Regroup(if w == [] then [] else [w], NonEmpty(front), if last == [] then [] else [last]);
    }
  }

  /** The words of a message, after its way through the line, are the words of the message. */
  lemma {:induction false} WordsOfLine(line: Line)
    requires line != [] && forall i :: 0 <= i < |line| ==> Plain(line[i])
    ensures NonEmpty(Split(LineBytes(line))) == line
    decreases |line|
  {
    if |line| == 1 {
      assert line[0] + [NEWLINE] + [] == LineBytes(line);
      SplitWord(line[0], NEWLINE, []);
      var none: seq<Word> := [[]];
      assert none[..0] == [];
      NonEmptyCons(line[0], none);
      assert line == [line[0]];
    } else {
      SplitWord(line[0], SPACE, LineBytes(line[1..]));
      NonEmptyCons(line[0], Split(LineBytes(line[1..])));
      WordsOfLine(line[1..]);
      assert [line[0]] + line[1..] == line;
    }
  }

  // ---------- numbers ----------

  predicate IsDigit(b: byte) {
    48 <= b <= 57
  }

  predicate AllDigits(w: Word) {
    forall i :: 0 <= i < |w| ==> IsDigit(w[i])
  }

  function Number(w: Word): nat
    requires AllDigits(w)
    decreases |w|
  {
    if w == [] then 0 else 10 * Number(w[..|w| - 1]) + (w[|w| - 1] - 48)
  }

  /** Reading a number back is the inverse of printing it. */
  lemma {:induction false} NumberOfDecimal(n: nat)
    ensures AllDigits(Decimal(n)) && Number(Decimal(n)) == n
    decreases n
  {
    var w := Decimal(n);
    if n < 10 {
      assert w[..|w| - 1] == [];
    } else {
      NumberOfDecimal(n / 10);
      assert w[..|w| - 1] == Decimal(n / 10);
    }
  }

  // ---------- players ----------

  function Compared(w: Word): Word {
    if |w| <= NAME_LENGTH then w else w[..NAME_LENGTH]
  }

  /** The interface takes two names for the same if and only if their first 64 bytes are. */
  lemma SameToTheInterface(a: Word, b: Word)
    ensures Compared(a) == Compared(b) <==> a == b || (|a| >= 64 && |b| >= 64 && a[..64] == b[..64])
  {
    if Compared(a) == Compared(b) {
      assert |a| < 64 ==> |Compared(a)| < 64;
      assert |b| < 64 ==> |Compared(b)| < 64;
      assert |a| == 64 ==> a[..64] == a;
      assert |b| == 64 ==> b[..64] == b;
    }
  }

  /** The first player of that name, -1 if there is none. */
  function Find(players: seq<Word>, player: Word): (index: int)
    ensures -1 <= index < |players|
    ensures index >= 0 ==> Compared(players[index]) == Compared(player)
    ensures forall i :: 0 <= i < (if index >= 0 then index else |players|) ==> Compared(players[i]) != Compared(player)
    decreases |players|
  {
    if players == [] then -1
    else
      var index := Find(players[..|players| - 1], player);
      if index < 0 && Compared(players[|players| - 1]) == Compared(player) then |players| - 1 else index
  }

  // ---------- commands ----------

  datatype Screen = Screen(width: nat, height: nat, players: seq<Word>)

  /** What becomes visible. */
  datatype Effect =
    | Nothing
    | Board                      // a new board with the players beside it
    | Dot(x: nat, y: nat, player: nat)
    | Cross(player: nat)         // the player is marked as eliminated

  /** Undefined: a conversion that overflows, or memory that is not the program's. */
  datatype Outcome = Obeyed(screen: Screen, effect: Effect) | Rejected(screen: Screen) | Undefined

  function NewGameCommand(s: Screen, tokens: seq<Word>): Outcome
    requires |tokens| > 4
  {
    if !AllDigits(tokens[1]) || !AllDigits(tokens[2]) then Rejected(s)
    else if Number(tokens[1]) >= INT_LIMIT || Number(tokens[2]) >= INT_LIMIT then Undefined
    else
      var players := tokens[3..3 + Min(|tokens| - 3, MAX_PLAYER)];
      if exists i :: 0 <= i < |players| && |players[i]| > NAME_LENGTH then Undefined
      else Obeyed(Screen(Number(tokens[1]), Number(tokens[2]), players), Board)
  }

  function PixelCommand(s: Screen, tokens: seq<Word>): Outcome {
    if |tokens| != 4 || !AllDigits(tokens[1]) || !AllDigits(tokens[2]) then Rejected(s)
    else if Number(tokens[1]) >= INT_LIMIT || Number(tokens[2]) >= INT_LIMIT then Undefined
    else
      var index := Find(s.players, tokens[3]);
      Obeyed(s, if index < 0 then Nothing else Dot(Number(tokens[1]), Number(tokens[2]), index))
  }

  function EliminatedCommand(s: Screen, tokens: seq<Word>): Outcome {
    if |tokens| != 2 then Rejected(s)
    else
      var index := Find(s.players, tokens[1]);
      if index < 0 || |tokens[1]| >= NAME_LENGTH then Undefined else Obeyed(s, Cross(index))
  }

  /** process_command, for a line of at least one word; it compares the first word without looking for it. */
  function Process(s: Screen, tokens: seq<Word>): Outcome {
    if tokens == [] then Undefined
    else if tokens[0] == Ascii("NEW_GAME") && |tokens| > 4 then NewGameCommand(s, tokens)
    else if tokens[0] == Ascii("PIXEL") then PixelCommand(s, tokens)
    else if tokens[0] == Ascii("PLAYER_ELIMINATED") then EliminatedCommand(s, tokens)
    else Rejected(s)
  }

  /** What the interface makes of a message. */
  function Show(s: Screen, line: Line): Outcome
    requires line != []
  {
    var tokens := NonEmpty(Split(LineBytes(line)));
    if |tokens| > MAX_TOKENS then Undefined else Process(s, tokens)
  }

  // ---------- events on the screen ----------

  /** Names the server admits, each once. */
  predicate GoodNames(names: seq<Name>) {
    && (forall i :: 0 <= i < |names| ==> Plain(names[i]) && |names[i]| < NAME_LENGTH)
    && (forall i, j :: 0 <= i < j < |names| ==> names[i] != names[j])
  }

  lemma {:induction false} PlainDecimal(n: nat)
    ensures Plain(Decimal(n))
  {
    NumberOfDecimal(n);
    assert forall i :: 0 <= i < |Decimal(n)| ==> IsDigit(Decimal(n)[i]);
  }

  lemma FindByName(names: seq<Name>, i: nat)
    requires GoodNames(names) && i < |names|
    ensures Find(names[..Min(|names|, MAX_PLAYER)], names[i]) == if i < MAX_PLAYER then i else -1
  {
    var players := names[..Min(|names|, MAX_PLAYER)];
    var index := Find(players, names[i]);
    assert forall j :: 0 <= j < |players| && j != i ==> Compared(players[j]) != Compared(names[i]);
    if i < |players| {
      assert Compared(players[i]) == Compared(names[i]);
    }
  }

  /** The names still fit the table of players and one line. */
  predicate FewNames(names: seq<Name>) {
    2 <= |names| <= MAX_TOKENS - 3
  }

  lemma NewGameWords(maxx: uint32, maxy: uint32, names: seq<Name>, line: Line)
    requires GoodNames(names) && line == [Ascii("NEW_GAME"), Decimal(maxx), Decimal(maxy)] + names
    ensures NonEmpty(Split(LineBytes(line))) == line
  {
    PlainDecimal(maxx);
    PlainDecimal(maxy);
    forall i | 0 <= i < |line| ensures Plain(line[i]) {
      if i >= 3 {
        assert line[i] == names[i - 3];
      }
    }
    WordsOfLine(line);
  }

  /** NEW_GAME sets up the board and the first twenty players, exactly if the sizes are ones that atoi can read. */
  lemma NewGameShown(s: Screen, maxx: uint32, maxy: uint32, names: seq<Name>)
    requires GoodNames(names) && FewNames(names)
    ensures var line := Stringify(NewGame(maxx, maxy, names), []).value;
            Show(s, line) == if maxx < 0x8000_0000 && maxy < 0x8000_0000 then
                               Obeyed(Screen(maxx, maxy, names[..Min(|names|, 20)]), Board)
                             else Undefined
  {
    var line: Line := [Ascii("NEW_GAME"), Decimal(maxx), Decimal(maxy)] + names;
    NewGameWords(maxx, maxy, names, line);
    NumberOfDecimal(maxx);
    NumberOfDecimal(maxy);
    assert line[3..3 + Min(|names|, MAX_PLAYER)] == names[..Min(|names|, MAX_PLAYER)];
  }

  /** With fewer than two names it is rejected. */
  lemma FewerRejected(s: Screen, maxx: uint32, maxy: uint32, names: seq<Name>)
    requires GoodNames(names) && |names| < 2
    ensures Show(s, Stringify(NewGame(maxx, maxy, names), []).value) == Rejected(s)
  {
    var line: Line := [Ascii("NEW_GAME"), Decimal(maxx), Decimal(maxy)] + names;
    NewGameWords(maxx, maxy, names, line);
    assert Ascii("NEW_GAME")[0] == 78 && Ascii("PIXEL")[0] == 80 && Ascii("PLAYER_ELIMINATED")[0] == 80;
  }

  /** The screen of a game with these players. */
  predicate Shows(s: Screen, names: seq<Name>) {
    s.players == names[..Min(|names|, MAX_PLAYER)]
  }

  /** A PIXEL appears at its place in the colour of its player, exactly for the first twenty players. */
  lemma PixelShown(s: Screen, names: seq<Name>, player: byte, x: uint32, y: uint32)
    requires GoodNames(names) && Shows(s, names) && player < |names| && x < INT_LIMIT && y < INT_LIMIT
    ensures var line := Stringify(EventData.Pixel(player, x, y), names).value;
            Show(s, line) == Obeyed(s, if player < 20 then Dot(x, y, player) else Nothing)
  {
    var line: Line := [Ascii("PIXEL"), Decimal(x), Decimal(y), names[player]];
    PlainDecimal(x);
    PlainDecimal(y);
    WordsOfLine(line);
    NumberOfDecimal(x);
    NumberOfDecimal(y);
    FindByName(names, player);
  }

  /** PLAYER_ELIMINATED crosses its player out, exactly for the first twenty; for any other the table is left. */
  lemma EliminatedShown(s: Screen, names: seq<Name>, player: byte)
    requires GoodNames(names) && Shows(s, names) && player < |names|
    ensures var line := Stringify(Eliminated(player), names).value;
            Show(s, line) == if player < 20 then Obeyed(s, Cross(player)) else Undefined
  {
    var line: Line := [Ascii("PLAYER_ELIMINATED"), names[player]];
    EliminatedTokens(s, names[player], line);
    FindByName(names, player);
  }

  lemma EliminatedTokens(s: Screen, name: Word, line: Line)
    requires Plain(name) && line == [Ascii("PLAYER_ELIMINATED"), name]
    ensures Show(s, line) == EliminatedCommand(s, line)
  {
    WordsOfLine(line);
    assert Ascii("PLAYER_ELIMINATED")[1] == 76 && Ascii("PIXEL")[1] == 73;
  }

  // ---------- the code ----------

  class Window {
    const kolgracz: array<Word>
    var ilgracz: nat
    var areaWidth: nat
    var areaHeight: nat

    ghost predicate Valid()
      reads this
    {
      kolgracz.Length == MAX_PLAYER && ilgracz <= MAX_PLAYER
    }

    ghost function View(): Screen
      requires Valid()
      reads this, kolgracz
    {
      Screen(areaWidth, areaHeight, kolgracz[..ilgracz])
    }

    constructor ()
      ensures Valid() && fresh(kolgracz) && View() == Screen(20, 20, [])
    {
      kolgracz := new Word[MAX_PLAYER](_ => []);
      ilgracz, areaWidth, areaHeight := 0, 20, 20;
    }

    method FindPlayerIndex(player: Word) returns (index: int)
      requires Valid()
      ensures index == Find(View().players, player)
    {
      for i := 0 to ilgracz
        invariant Find(kolgracz[..i], player) == -1
      {
        assert kolgracz[..i + 1][..i] == kolgracz[..i];
        if Compared(kolgracz[i]) == Compared(player) {
          assert View().players[..i] == kolgracz[..i];
          FindPrefix(View().players, player, i);
          return i;
        }
      }
      index := -1;
    }

    /** failed: the tables and buffers are overrun, or a number is. */
    method ProcessCommand(tokens: seq<Word>) returns (accepted: bool, effect: Effect, failed: bool)
      requires Valid()
      modifies this, kolgracz
      ensures Valid()
      ensures match Process(old(View()), tokens)
              case Undefined => failed
              case Rejected(s) => !failed && !accepted && View() == s
              case Obeyed(s, e) => !failed && accepted && View() == s && effect == e
    {
      accepted, effect, failed := false, Nothing, false;
      if tokens == [] {
        failed := true;
      } else if tokens[0] == Ascii("NEW_GAME") && |tokens| > 4 {
        accepted, effect, failed := ProcessNewGame(tokens);
      } else if tokens[0] == Ascii("PIXEL") {
        var digits := false;
        if |tokens| == 4 {
          digits := BothDigits(tokens);
        }
        if digits {
          failed := Number(tokens[1]) >= INT_LIMIT || Number(tokens[2]) >= INT_LIMIT;
          var index := FindPlayerIndex(tokens[3]);
          if index >= 0 {
            effect := Dot(Number(tokens[1]), Number(tokens[2]), index);
          }
          accepted := true;
        }
      } else if tokens[0] == Ascii("PLAYER_ELIMINATED") {
        if |tokens| == 2 {
          var index := FindPlayerIndex(tokens[1]);
          failed := index < 0 || |tokens[1]| >= NAME_LENGTH;
          if !failed {
            effect := Cross(index);
          }
          accepted := true;
        }
      }
    }

    method ProcessNewGame(tokens: seq<Word>) returns (accepted: bool, effect: Effect, failed: bool)
      requires Valid() && |tokens| > 4
      modifies this, kolgracz
      ensures Valid()
      ensures match NewGameCommand(old(View()), tokens)
              case Undefined => failed
              case Rejected(s) => !failed && !accepted && View() == s
              case Obeyed(s, e) => !failed && accepted && View() == s && effect == e
    {
      accepted, effect, failed := false, Nothing, false;
      var digits := BothDigits(tokens);
      if !digits {
        return;
      }
      if Number(tokens[1]) >= INT_LIMIT || Number(tokens[2]) >= INT_LIMIT {
        return false, Nothing, true;
      }
      areaWidth, areaHeight := Number(tokens[1]), Number(tokens[2]);
      ilgracz := |tokens| - 3;
      if ilgracz > MAX_PLAYER {
        ilgracz := MAX_PLAYER;
      }
      ghost var players := tokens[3..3 + ilgracz];
      for i := 0 to ilgracz
        invariant Valid() && ilgracz == |players| && kolgracz[..i] == players[..i]
        invariant areaWidth == Number(tokens[1]) && areaHeight == Number(tokens[2])
        invariant forall j :: 0 <= j < i ==> |players[j]| <= NAME_LENGTH
      {
        assert players[i] == tokens[i + 3];
        if |tokens[i + 3]| > NAME_LENGTH {
          return false, Nothing, true;
        }
        kolgracz[i] := tokens[i + 3];
      }
      accepted, effect := true, Board;
    }
  }

  method BothDigits(tokens: seq<Word>) returns (digits: bool)
    requires |tokens| >= 3
    ensures digits <==> AllDigits(tokens[1]) && AllDigits(tokens[2])
  {
    digits := IsNumber(tokens[1]);
    if digits {
      digits := IsNumber(tokens[2]);
    }
  }

  /** all_digits. */
  method IsNumber(w: Word) returns (digits: bool)
    ensures digits <==> AllDigits(w)
    ensures digits <==> forall i :: 0 <= i < |w| ==> 48 <= w[i] <= 57
  {
    for i := 0 to |w|
      invariant forall j :: 0 <= j < i ==> IsDigit(w[j])
    {
      if !IsDigit(w[i]) {
        return false;
      }
    }
    digits := true;
  }

  lemma {:induction false} FindPrefix(players: seq<Word>, player: Word, i: nat)
    requires i < |players| && Find(players[..i], player) == -1 && Compared(players[i]) == Compared(player)
    ensures Find(players, player) == i
  {
    assert forall j :: 0 <= j < i ==> Compared(players[..i][j]) != Compared(player);
    var index := Find(players, player);
    assert index >= 0;
  }

  /** failed: more than MAX_TOKENS words. */
  method RemoveEmptyTokens(tokens: seq<Word>) returns (result: seq<Word>, failed: bool)
    ensures failed <==> |NonEmpty(tokens)| > 30
    ensures !failed ==> result == NonEmpty(tokens)
  {
    result := [];
    for i := 0 to |tokens|
      invariant result == NonEmpty(tokens[..i]) && |result| <= MAX_TOKENS
    {
      assert tokens[..i + 1][..i] == tokens[..i];
      if tokens[i] != [] {
        result := result + [tokens[i]];
      }
      if |result| > MAX_TOKENS {
        NonEmptyGrows(tokens, i + 1);
        return result, true;
      }
    }
    assert tokens[..|tokens|] == tokens;
    failed := false;
  }

  lemma {:induction false} NonEmptyGrows(tokens: seq<Word>, n: nat)
    requires n <= |tokens|
    ensures |NonEmpty(tokens[..n])| <= |NonEmpty(tokens)|
    decreases |tokens|
  {
    if n == |tokens| {
      assert tokens[..n] == tokens;
    } else {
      assert tokens[..|tokens| - 1][..n] == tokens[..n];
      NonEmptyGrows(tokens[..|tokens| - 1], n);
    }
  }
}
