/**
 * The parts of the WinForms client that are plain string logic: the decoder of
 * server messages in `ProcessServerMessage`, the login name check, and the move
 * tags of the three choice buttons.
 */
module Client {
  import opened Wrappers
  import Protocol
  import Rules

  // ---------------------------------------------------------------------------
  // `message.Split('|')`

  /** The text between separators, left to right; `""` where two separators meet or at an end. */
  function Split(s: string, sep: char): (parts: seq<string>)
    ensures |parts| >= 1
    ensures forall k :: 0 <= k < |parts| ==> sep !in parts[k]
    ensures Join(parts, sep) == s
  {
    if |s| == 0 then [""]
    else
      var rest := Split(s[1..], sep);
      if s[0] == sep then
        assert ([""] + rest)[1..] == rest;
        [""] + rest
      else
        var parts := [[s[0]] + rest[0]] + rest[1..];
        assert parts[1..] == rest[1..];
        assert Join(rest, sep) == if |rest| == 1 then rest[0] else rest[0] + [sep] + Join(rest[1..], sep);
        assert s == [s[0]] + s[1..];
        parts
  }

  /** `string.Join(sep, parts)`. */
  function Join(parts: seq<string>, sep: char): string
    requires |parts| >= 1
  {
    if |parts| == 1 then parts[0] else parts[0] + [sep] + Join(parts[1..], sep)
  }

  /** A part without the separator, followed by the separator and more text, splits off as the first part. */
  lemma {:induction false} SplitAtFirst(a: string, b: string, sep: char)
    requires sep !in a
    ensures Split(a + [sep] + b, sep) == [a] + Split(b, sep)
  {
    if |a| == 0 {
      assert a + [sep] + b == [sep] + b;
      assert ([sep] + b)[1..] == b;
    } else {
      SplitAtFirst(a[1..], b, sep);
      assert (a + [sep] + b)[1..] == a[1..] + [sep] + b;
      assert [a[0]] + a[1..] == a;
    }
  }

  /** Text without the separator is a single part. */
  lemma {:induction false} SplitNone(a: string, sep: char)
    requires sep !in a
    ensures Split(a, sep) == [a]
  {
    if |a| > 0 {
      SplitNone(a[1..], sep);
      assert [a[0]] + a[1..] == a;
    }
  }

  /** Splitting undoes joining parts that do not contain the separator. */
  lemma {:induction false} SplitJoin(parts: seq<string>, sep: char)
    requires |parts| >= 1 && forall k :: 0 <= k < |parts| ==> sep !in parts[k]
    ensures Split(Join(parts, sep), sep) == parts
  {
    if |parts| == 1 {
      SplitNone(parts[0], sep);
    } else {
      SplitJoin(parts[1..], sep);
      SplitAtFirst(parts[0], Join(parts[1..], sep), sep);
      assert [parts[0]] + parts[1..] == parts;
    }
  }

  // ---------------------------------------------------------------------------
  // `ProcessServerMessage`

  /** The command and content the client dispatches on. */
  datatype Frame = Frame(command: string, content: string)

  /** `parts[0]`, and `parts[1]` when there is one, else `""`. */
  function Decode(message: string): Frame {
    var parts := Split(message, '|');
    Frame(parts[0], if |parts| > 1 then parts[1] else "")
  }

  /** A message without `|` is all command, with empty content. */
  lemma DecodeWithoutPipe(message: string)
    requires '|' !in message
    ensures Decode(message) == Frame(message, "")
  {
    SplitNone(message, '|');
  }

  /**
   * With a `|`, the command is the text before the first one and the content
   * is the text after it up to the next `|` or the end.
   */
  lemma DecodeWithPipe(command: string, rest: string)
    requires '|' !in command
    ensures var f := Decode(command + "|" + rest);
      f.command == command && f.content <= rest && '|' !in f.content &&
      (|f.content| == |rest| || rest[|f.content|] == '|')
  {
    SplitAtFirst(command, rest, '|');
    var parts := Split(rest, '|');
    if |parts| > 1 {
      assert rest == parts[0] + ['|'] + Join(parts[1..], '|');
    } else {
      assert rest == parts[0];
    }
  }

  /** The round trip: `COMMAND|payload` decodes to its two halves when neither holds a `|`. */
  lemma DecodeEncode(command: string, payload: string)
    requires '|' !in command && '|' !in payload
    ensures Decode(Protocol.Encode(command, payload)) == Frame(command, payload)
  {
    SplitAtFirst(command, payload, '|');
    SplitNone(payload, '|');
  }

  /** The welcome text of a name without `|` decodes to itself with empty content, which no case of the client handles. */
  lemma WelcomeDecodes(name: string)
    requires '|' !in name
    ensures Decode(Protocol.Welcome(name)) == Frame(Protocol.Welcome(name), "")
  {
    var greeting, waiting := "Welcome, ", "! Waiting for opponent...";
    assert '|' !in greeting && '|' !in waiting;
    assert Protocol.Welcome(name) == greeting + name + waiting;
    DecodeWithoutPipe(Protocol.Welcome(name));
  }

  /** MATCHED carries the opponent's name, intact when it holds no `|`. */
  lemma MatchedDecodes(name: string)
    requires '|' !in name
    ensures Decode(Protocol.Matched(name)) == Frame("MATCHED", "Game started! Your opponent is " + name)
  {
    DecodeEncode("MATCHED", "Game started! Your opponent is " + name);
  }

  /** The fixed prompt and notices decode to their command and text. */
  lemma ChooseDecodes()
    ensures Decode(Protocol.Choose) == Frame("CHOOSE", "Rock, Paper, or Scissors?")
  {
    DecodeEncode("CHOOSE", "Rock, Paper, or Scissors?");
  }

  lemma DrawDecodes()
    ensures Decode(Protocol.Draw) == Frame("DRAW", "It's a draw!")
  {
    DecodeEncode("DRAW", "It's a draw!");
  }

  lemma OpponentDisconnectedDecodes()
    ensures Decode(Protocol.OpponentDisconnected) == Frame("OPPONENT_DISCONNECTED", "Your opponent has disconnected.")
  {
    DecodeEncode("OPPONENT_DISCONNECTED", "Your opponent has disconnected.");
  }

  /** WIN and LOSE carry the two moves, winning move first, intact when neither holds a `|`. */
  lemma WinLoseDecode(winner: string, loser: string)
    requires '|' !in winner && '|' !in loser
    ensures Decode(Protocol.Win(winner, loser)) == Frame("WIN", "You win! " + winner + " beats " + loser)
    ensures Decode(Protocol.Lose(winner, loser)) == Frame("LOSE", "You lose! " + winner + " beats " + loser)
  {
    DecodeEncode("WIN", "You win! " + winner + " beats " + loser);
    DecodeEncode("LOSE", "You lose! " + winner + " beats " + loser);
  }

  /** The result of a round between two moves decodes to WIN, LOSE or DRAW as the game's rule gives it. */
  lemma ResultDecodes(a: string, b: string)
    requires Rules.IsMove(a) && Rules.IsMove(b)
    ensures var t := Rules.ResultTexts(Some(a), Some(b));
      match Rules.Reference(a, b)
      case Draw => Decode(t.0) == Decode(t.1) == Frame("DRAW", "It's a draw!")
      case FirstWins => Decode(t.0) == Frame("WIN", "You win! " + a + " beats " + b) &&
                        Decode(t.1) == Frame("LOSE", "You lose! " + a + " beats " + b)
      case SecondWins => Decode(t.0) == Frame("LOSE", "You lose! " + b + " beats " + a) &&
                         Decode(t.1) == Frame("WIN", "You win! " + b + " beats " + a)
  {
    Rules.ResultTextsMeaning(a, b);
    assert '|' !in a && '|' !in b;
    match Rules.Reference(a, b)
    case Draw => DrawDecodes();
    case FirstWins => WinLoseDecode(a, b);
    case SecondWins => WinLoseDecode(b, a);
  }

  // ---------------------------------------------------------------------------
  // The login name

  /** `char.IsWhiteSpace`: the Unicode space separators, line and paragraph separators, and U+0009-U+000D, U+0085. */
  predicate IsWhiteSpace(c: char) {
    ('\U{0009}' <= c <= '\U{000D}') || c == '\U{0020}' || c == '\U{0085}' || c == '\U{00A0}' ||
    c == '\U{1680}' || ('\U{2000}' <= c <= '\U{200A}') || c == '\U{2028}' || c == '\U{2029}' ||
    c == '\U{202F}' || c == '\U{205F}' || c == '\U{3000}'
  }

  /** `string.IsNullOrWhiteSpace`. */
  predicate IsNullOrWhiteSpace(text: Option<string>) {
    match text
    case None => true
    case Some(s) => forall i :: 0 <= i < |s| ==> IsWhiteSpace(s[i])
  }

  /** `SubmitButton_Click`: the text box's text becomes the player name unless it is null, empty or all white space. */
  function SubmitName(text: Option<string>): (name: Option<string>)
    ensures name.Some? <==> text.Some? && exists i :: 0 <= i < |text.value| && !IsWhiteSpace(text.value[i])
    ensures name.Some? ==> name == text
    ensures name.Some? ==> |name.value| > 0
  {
    if !IsNullOrWhiteSpace(text) then text else None
  }

  // ---------------------------------------------------------------------------
  // The choice buttons

  datatype ChoiceButton = RockButton | PaperButton | ScissorsButton

  /** `button.Tag.ToString()`, the text `ChoiceButton_Click` writes to the server. */
  function Tag(b: ChoiceButton): (move: string)
    ensures Rules.IsMove(move)
  {
    match b
    case RockButton => "Rock"
    case PaperButton => "Paper"
    case ScissorsButton => "Scissors"
  }

  /** Each of the three moves is sent by exactly one button. */
  lemma TagsAreTheMoves(m: string)
    ensures Rules.IsMove(m) <==> exists b :: Tag(b) == m
    ensures forall b, c :: Tag(b) == Tag(c) ==> b == c
  {
    if m == "Rock" {
      assert Tag(RockButton) == m;
    } else if m == "Paper" {
      assert Tag(PaperButton) == m;
    } else if m == "Scissors" {
      assert Tag(ScissorsButton) == m;
    }
  }
}
