/**
 * The earlier draw-command console: a parser that splits the stripped input
 * on commas into five plain arguments, and a line editor without history
 * or tab completion.  The editor is modelled as written, including the two
 * cursor defects that the current editor corrects.
 */
module EarlyConsole {
  import opened CppLib
  import opened Console

  // ---------------------------------------------------------------------
  // valid_char
  // ---------------------------------------------------------------------

  /** static_cast<char>(c): the low byte of c. */
  function CharOf(c: int): char {
    (c % 256) as char
  }

  /** The allowed punctuation is printable ASCII. */
  lemma AllowedCharsPrintable()
    ensures forall x :: x in AllowedChars ==> 32 <= x as int <= 126
  {
  }

  /**
   * valid_char: isalnum(c) on the ASCII range, or the low byte of c is
   * allowed punctuation.  It accepts every character the current validChar
   * accepts, and nothing whose low byte the current one would refuse.
   */
  function EarlyValidChar(c: int): (valid: bool)
    ensures ValidChar(c) ==> valid
    ensures valid ==> ValidChar(c % 256)
  {
    ValidCharIsEarlyValid(c);
    EarlyValidLowByte(c);
    (0 <= c < 128 && IsAlnum(c as char)) || CharOf(c) in AllowedChars
  }

  /** What validChar accepts, valid_char accepts. */
  lemma ValidCharIsEarlyValid(c: int)
    ensures ValidChar(c) ==> (0 <= c < 128 && IsAlnum(c as char)) || CharOf(c) in AllowedChars
  {
    if ValidChar(c) {
      assert CharOf(c) == c as char;
    }
  }

  /** What valid_char accepts has a low byte validChar accepts. */
  lemma EarlyValidLowByte(c: int)
    ensures (0 <= c < 128 && IsAlnum(c as char)) || CharOf(c) in AllowedChars ==> ValidChar(c % 256)
  {
    if 0 <= c < 128 && IsAlnum(c as char) {
      assert c % 256 == c;
    } else if CharOf(c) in AllowedChars {
      AllowedCharsPrintable();
      assert (c % 256) as char == CharOf(c);
    }
  }

  /**
   * A key code above 255 whose low byte is allowed punctuation is accepted
   * as that character (the function key F24 types a space), which the
   * current check refuses.
   */
  lemma EarlyValidCharWider()
    ensures EarlyValidChar(288) && !ValidChar(288) && CharOf(288) == ' '
  {
    assert 288 % 256 == 32;
    assert (32 as char) == ' ';
    assert ' ' in AllowedChars;
  }

  /** The editing keys are not characters, so each reaches its own case. */
  lemma EarlyEditingKeysAreNotChars()
    ensures !EarlyValidChar(KeyEnter) && !EarlyValidChar(KeyNewline) && !EarlyValidChar(KeyEscape)
    ensures !EarlyValidChar(KeyLeft) && !EarlyValidChar(KeyRight)
    ensures !EarlyValidChar(KeyBackspace) && !EarlyValidChar(KeyDc) && !EarlyValidChar(KeyTab)
  {
    AllowedCharsPrintable();
    assert KeyEnter % 256 == 87 && (87 as char) !in AllowedChars;
    assert KeyDc % 256 == 74 && (74 as char) !in AllowedChars;
    assert KeyLeft % 256 == 4 && KeyRight % 256 == 5 && KeyBackspace % 256 == 7;
  }

  // ---------------------------------------------------------------------
  // parse
  // ---------------------------------------------------------------------

  /** The draw arguments: expression, selection, option, number of entries, first entry. */
  datatype EarlyDrawArgs = EarlyDrawArgs(expression: string, selection: string, option: string, nentries: int, firstEntry: int)

  /** The arguments parse resets to: empty strings, kMaxEntries entries from entry 0. */
  const EarlyDefaultArgs := EarlyDrawArgs("", "", "", MaxEntries, 0)

  /** The outcome of parse: whether it is valid, the arguments, and the error message it sets. */
  datatype EarlyParseOutcome = EarlyParsed(valid: bool, args: EarlyDrawArgs, error: Option<string>)

  /**
   * What parse makes of a stripped input: the comma tokens fill the
   * arguments in order, tokens past the fifth are ignored, and a fourth or
   * fifth token stoll refuses keeps its default and sets the error (the
   * fifth's message replacing the fourth's).
   */
  function EarlyParseSpec(s: string): (p: EarlyParseOutcome)
    ensures p.valid <==> p.error.None?
    ensures p.valid <==> (|Split(s)| <= 3 || Stoll(Split(s)[3]).Success?) && (|Split(s)| <= 4 || Stoll(Split(s)[4]).Success?)
    ensures p.args.expression == Split(s)[0]
    ensures |Split(s)| >= 5 && Stoll(Split(s)[4]).Failure? ==> p.error == EntryArgument(Split(s), 4, 0, "Argument 5 (firstentry)").1
  {
    var tokens := Split(s);
    var (nentries, error4) := EntryArgument(tokens, 3, MaxEntries, "Argument 4 (nentries)");
    var (firstEntry, error5) := EntryArgument(tokens, 4, 0, "Argument 5 (firstentry)");
    EarlyParsed(error4.None? && error5.None?,
                EarlyDrawArgs(tokens[0], if |tokens| >= 2 then tokens[1] else "", if |tokens| >= 3 then tokens[2] else "",
                              nentries, firstEntry),
                if error5.Some? then error5 else error4)
  }

  /** A character absent from s is absent from every comma token of s. */
  lemma {:induction false} SplitAvoids(s: string, c: char)
    requires c !in s
    ensures forall k :: 0 <= k < |Split(s)| ==> c !in Split(s)[k]
    decreases |s|
  {
    if s != [] {
      var init := s[..|s| - 1];
      assert forall x :: x in init ==> x in s;
      SplitAvoids(init, c);
    }
  }

  /**
   * On a stripped input without '>' and with at most one ':' in its first
   * token the current parser agrees with the earlier one, which reads no
   * histogram limits: the same validity, error, selection and entries, the
   * first token as the expression, and the option, except that a missing
   * option is "goff" now and empty before.
   */
  lemma EarlyParseMatchesCurrent(s: string)
    requires '>' !in s && ColonCount(Split(s)[0]) <= 1
    ensures var early := EarlyParseSpec(s);
      var now := ParseSpec(s);
      now.Parsed? && now.valid == early.valid && now.error == early.error &&
      now.args.first == FirstDrawArg(early.args.expression, [], NoError, ColonCount(early.args.expression) == 1) &&
      now.args.selection == early.args.selection &&
      now.args.nentries == early.args.nentries && now.args.firstEntry == early.args.firstEntry &&
      now.args.option == (if |Split(s)| >= 3 then early.args.option else "goff") &&
      early.args.option == (if |Split(s)| >= 3 then Split(s)[2] else "")
  {
    NoMarker(s);
    SplitAvoids(s, '>');
    PlainDrawArg(Split(s)[0]);
  }

  /**
   * Five plain arguments written with commas, the last two 64-bit
   * integers, parse back to exactly those arguments.
   */
  lemma EarlyParseRoundTrip(expression: string, selection: string, option: string, nentries: int, firstEntry: int)
    requires CommaFree(expression) && CommaFree(selection) && CommaFree(option)
    requires forall k :: 0 <= k < |expression| ==> !Stripped(expression[k])
    requires forall k :: 0 <= k < |selection| ==> !Stripped(selection[k])
    requires forall k :: 0 <= k < |option| ==> !Stripped(option[k])
    requires Int64Min <= nentries <= Int64Max && Int64Min <= firstEntry <= Int64Max
    ensures var s := Join([expression, selection, option, IntToString(nentries), IntToString(firstEntry)]);
      Strip(s) == s &&
      EarlyParseSpec(s) == EarlyParsed(true, EarlyDrawArgs(expression, selection, option, nentries, firstEntry), None)
  {
    var tokens := [expression, selection, option, IntToString(nentries), IntToString(firstEntry)];
    IntToStringPlain(nentries);
    IntToStringPlain(firstEntry);
    IntToStringChars(nentries);
    IntToStringChars(firstEntry);
    forall k | 0 <= k < |tokens|
      ensures CommaFree(tokens[k]) && ' ' !in tokens[k] && '"' !in tokens[k]
    {
      var t := tokens[k];
      if k == 0 { assert t == expression; }
      else if k == 1 { assert t == selection; }
      else if k == 2 { assert t == option; }
      else if k == 3 { assert t == IntToString(nentries); }
      else { assert t == IntToString(firstEntry); }
      assert forall i :: 0 <= i < |t| ==> !Stripped(t[i]);
    }
    var s := Join(tokens);
    SplitJoin(tokens);
    JoinAvoids(tokens, ' ');
    JoinAvoids(tokens, '"');
    assert forall i :: 0 <= i < |s| ==> !Stripped(s[i]);
    StripClean(s);
    StollOfIntToString(nentries);
    StollOfIntToString(firstEntry);
  }

  /** One guarded stoll of parse: token k read if present, its error message if stoll throws. */
  method ReadEntry(tokens: seq<string>, k: nat, fallback: int, name: string) returns (value: int, error: Option<string>)
    ensures (value, error) == EntryArgument(tokens, k, fallback, name)
  {
    value, error := fallback, None;
    if |tokens| > k {
      var n := Stoll(tokens[k]);
      match n
      case Success(v) => value := v;
      case Failure(InvalidArgument) => error := Some(name + " must be Long64_t, not \"" + tokens[k] + "\"");
      case Failure(OutOfRange) => error := Some(name + " out of range [0," + Int64MaxText + "]");
    }
  }

  // ---------------------------------------------------------------------
  // handleInput
  // ---------------------------------------------------------------------

  /** The editor's part of the console state. */
  datatype EarlyEditorState = EarlyEditorState(input: string, cursOffset: int, entering: bool)

  /** The cursor lies within the input (counted from its end). */
  predicate EarlyEditorOk(e: EarlyEditorState) {
    0 <= e.cursOffset <= |e.input|
  }

  /**
   * handleInput as written.  None stands for the std::out_of_range that
   * insert throws when the offset lies past the start of the input.  The
   * left arrow compares the int offset with the size_t length, so a
   * negative offset never moves.  Backspace inside the input erases the
   * character after the cursor.
   */
  function EarlyKeyStep(e: EarlyEditorState, key: int): (next: Option<EarlyEditorState>)
    ensures next.None? <==> EarlyValidChar(key) && e.cursOffset > |e.input|
  {
    var size := |e.input|;
    if EarlyValidChar(key) then
      if e.cursOffset > 0 then
        if e.cursOffset > size then None
        else Some(e.(input := InsertAt(e.input, size - e.cursOffset, CharOf(key))))
      else Some(e.(input := e.input + [CharOf(key)]))
    else if key == KeyEnter || key == KeyNewline then Some(EarlyEditorState(Strip(e.input), 0, false))
    else if key == KeyEscape then Some(e.(entering := false))
    else if key == KeyLeft then Some(if 0 <= e.cursOffset < size then e.(cursOffset := e.cursOffset + 1) else e)
    else if key == KeyRight then Some(if e.cursOffset > 0 then e.(cursOffset := e.cursOffset - 1) else e)
    else if key == KeyBackspace || key == KeyDc then
      if size == 0 then Some(e)
      else
        var input := if e.cursOffset > 0 then (if size - e.cursOffset >= 0 then EraseAt(e.input, size - e.cursOffset) else e.input)
                     else e.input[..size - 1];
        Some(e.(input := input, cursOffset := if key == KeyDc then e.cursOffset - 1 else e.cursOffset))
    else if key == KeyTab then Some(e.(input := e.input + "TAB_WIP"))
    else Some(e)
  }

  /**
   * From a cursor within the input every key is handled without an
   * exception, and the cursor stays within the input except exactly for
   * backspace with the cursor at the start of a non-empty input and delete
   * with the cursor at its end.
   */
  lemma EarlyKeyStepCursor(e: EarlyEditorState, key: int)
    requires EarlyEditorOk(e)
    ensures EarlyKeyStep(e, key).Some?
    ensures EarlyEditorOk(EarlyKeyStep(e, key).value) <==>
      !(key == KeyBackspace && 0 < e.cursOffset == |e.input|) && !(key == KeyDc && e.cursOffset == 0 && |e.input| > 0)
  {
    EarlyEditingKeysAreNotChars();
    if key == KeyEnter || key == KeyNewline {
      assert |Strip(e.input)| >= 0;
    }
  }

  /** The earlier editor as a current editor state, with no history. */
  function AsCurrent(e: EarlyEditorState): (c: EditorState)
    ensures EarlyEditorOk(e) ==> EditorOk(c, [])
  {
    EditorState(e.input, e.cursOffset, 0, "", e.entering)
  }

  /**
   * For characters and the escape, arrow and delete keys, on a cursor
   * within the input, the earlier editor does what the current one does,
   * except backspace inside the input and delete at its end.
   */
  lemma EarlyKeyStepAgrees(e: EarlyEditorState, key: int)
    requires EarlyEditorOk(e)
    requires ValidChar(key) || key == KeyEscape || key == KeyLeft || key == KeyRight || key == KeyBackspace || key == KeyDc
    requires !(key == KeyBackspace && e.cursOffset > 0) && !(key == KeyDc && e.cursOffset == 0 && |e.input| > 0)
    ensures EarlyKeyStep(e, key).Some?
    ensures AsCurrent(EarlyKeyStep(e, key).value) == KeyStep(AsCurrent(e), [], [], key)
  {
    if ValidChar(key) {
      CharKeyAgrees(e, key);
    } else {
      EditingKeyAgrees(e, key);
    }
  }

  /** A typed character lands at the same place in both editors. */
  lemma CharKeyAgrees(e: EarlyEditorState, key: int)
    requires EarlyEditorOk(e) && ValidChar(key)
    ensures EarlyKeyStep(e, key).Some?
    ensures AsCurrent(EarlyKeyStep(e, key).value) == KeyStep(AsCurrent(e), [], [], key)
  {
    EarlyTyped(e, key);
    CurrentTyped(AsCurrent(e), key);
  }

  /** The earlier editor inserts a typed character before the cursor. */
  lemma EarlyTyped(e: EarlyEditorState, key: int)
    requires EarlyEditorOk(e) && ValidChar(key)
    ensures EarlyKeyStep(e, key) == Some(e.(input := InsertAt(e.input, |e.input| - e.cursOffset, key as char)))
  {
    assert CharOf(key) == key as char;
    if e.cursOffset == 0 {
      assert InsertAt(e.input, |e.input|, key as char) == e.input + [key as char];
    }
  }

  /** The current editor inserts a typed character before the cursor. */
  lemma CurrentTyped(c: EditorState, key: int)
    requires EditorOk(c, []) && ValidChar(key)
    ensures KeyStep(c, [], [], key) == c.(input := InsertAt(c.input, |c.input| - c.cursOffset, key as char))
  {
  }

  /** Escape, the arrows and the agreeing deletions act alike in both editors. */
  lemma EditingKeyAgrees(e: EarlyEditorState, key: int)
    requires EarlyEditorOk(e)
    requires key == KeyEscape || key == KeyLeft || key == KeyRight || key == KeyBackspace || key == KeyDc
    requires !(key == KeyBackspace && e.cursOffset > 0) && !(key == KeyDc && e.cursOffset == 0 && |e.input| > 0)
    ensures EarlyKeyStep(e, key).Some?
    ensures AsCurrent(EarlyKeyStep(e, key).value) == KeyStep(AsCurrent(e), [], [], key)
  {
    EarlyEditingKeysAreNotChars();
    EditingKeysAreNotChars();
  }

  /**
   * Backspace with the cursor inside the input erases the character after
   * the cursor, where the current editor erases the one before it; with the
   * cursor at the start it leaves the offset past the start of the shorter
   * input, and the next typed character makes insert throw.
   */
  lemma BackspaceErasesAfterCursor()
    ensures EarlyKeyStep(EarlyEditorState("abc", 1, true), KeyBackspace) == Some(EarlyEditorState("ab", 1, true))
    ensures KeyStep(EditorState("abc", 1, 0, "", true), [], [], KeyBackspace) == EditorState("ac", 1, 0, "", true)
    ensures var erased := EarlyKeyStep(EarlyEditorState("ab", 2, true), KeyBackspace);
      erased == Some(EarlyEditorState("b", 2, true)) && !EarlyEditorOk(erased.value) &&
      EarlyKeyStep(erased.value, 'x' as int) == None
    ensures KeyStep(EditorState("ab", 2, 0, "", true), [], [], KeyBackspace) == EditorState("ab", 2, 0, "", true)
  {
    EarlyEditingKeysAreNotChars();
    EditingKeysAreNotChars();
    assert EarlyValidChar('x' as int);
    assert EraseAt("abc", 2) == "ab";
    assert EraseAt("abc", 1) == "ac";
    assert EraseAt("ab", 0) == "b";
  }

  /**
   * Delete with the cursor at the end of the input drives the offset to -1;
   * from there neither arrow moves the cursor, and typing appends at the end.
   */
  lemma DeleteAtEndLocksCursor()
    ensures var deleted := EarlyKeyStep(EarlyEditorState("ab", 0, true), KeyDc);
      deleted == Some(EarlyEditorState("a", -1, true)) &&
      EarlyKeyStep(deleted.value, KeyLeft) == deleted &&
      EarlyKeyStep(deleted.value, KeyRight) == deleted &&
      EarlyKeyStep(deleted.value, 'x' as int) == Some(EarlyEditorState("ax", -1, true))
    ensures KeyStep(EditorState("ab", 0, 0, "", true), [], [], KeyDc) == EditorState("a", 0, 0, "", true)
  {
    EarlyEditingKeysAreNotChars();
    EditingKeysAreNotChars();
    assert EarlyValidChar('x' as int);
    assert 120 % 256 == 120;
    assert CharOf('x' as int) == 'x';
    assert "ab"[..1] == "a";
    assert "a" + ['x'] == "ax";
  }

  // ---------------------------------------------------------------------
  // The console
  // ---------------------------------------------------------------------

  class EarlyConsole {
    var currentInput: string
    var cursOffset: int
    var enteringDrawCommand: bool
    var currentArgs: EarlyDrawArgs
    var lastError: string

    function Editor(): EarlyEditorState
      reads this
    {
      EarlyEditorState(currentInput, cursOffset, enteringDrawCommand)
    }

    constructor()
      ensures currentInput == [] && cursOffset == 0 && !enteringDrawCommand && lastError == []
      ensures currentArgs == EarlyDrawArgs("", "", "", 0, 0)
      ensures EarlyEditorOk(Editor())
    {
      currentInput := [];
      cursOffset := 0;
      enteringDrawCommand := false;
      currentArgs := EarlyDrawArgs("", "", "", 0, 0);
      lastError := [];
    }

    /** parse: strip the input, reset the cursor and the arguments, and read the tokens. */
    method Parse() returns (valid: bool)
      modifies this`currentInput, this`cursOffset, this`currentArgs, this`lastError
      ensures currentInput == Strip(old(currentInput)) && cursOffset == 0
      ensures var p := EarlyParseSpec(currentInput);
        valid == p.valid && currentArgs == p.args &&
        lastError == (if p.error.Some? then p.error.value else old(lastError))
    {
      currentInput := StripInPlace(currentInput);
      cursOffset := 0;
      currentArgs := EarlyDefaultArgs;
      var tokens := Tokenize(currentInput, 0, "");
      assert currentInput[0..] == currentInput;
      assert "" + Split(currentInput)[0] == Split(currentInput)[0];
      assert Glue("", Split(currentInput)) == Split(currentInput);
      var ntokens := |tokens|;
      if ntokens >= 1 { currentArgs := currentArgs.(expression := tokens[0]); }
      if ntokens >= 2 { currentArgs := currentArgs.(selection := tokens[1]); }
      if ntokens >= 3 { currentArgs := currentArgs.(option := tokens[2]); }
      var nentries, error4 := ReadEntry(tokens, 3, MaxEntries, "Argument 4 (nentries)");
      var firstEntry, error5 := ReadEntry(tokens, 4, 0, "Argument 5 (firstentry)");
      currentArgs := currentArgs.(nentries := nentries, firstEntry := firstEntry);
      if error4.Some? { lastError := error4.value; }
      if error5.Some? { lastError := error5.value; }
      valid := error4.None? && error5.None?;
    }

    /**
     * handleInput: false when insert throws, which leaves the console as it
     * was; otherwise the editor moves as EarlyKeyStep says, and Enter parses.
     */
    method HandleInput(key: int) returns (ok: bool)
      modifies this`currentInput, this`cursOffset, this`enteringDrawCommand, this`currentArgs, this`lastError
      ensures ok <==> EarlyKeyStep(old(Editor()), key).Some?
      ensures ok ==> Editor() == EarlyKeyStep(old(Editor()), key).value
      ensures !ok ==> Editor() == old(Editor())
      ensures (key == KeyEnter || key == KeyNewline) && !EarlyValidChar(key) ==>
        var p := EarlyParseSpec(currentInput);
        currentArgs == p.args && lastError == (if p.error.Some? then p.error.value else old(lastError))
      ensures !(key == KeyEnter || key == KeyNewline) ==> currentArgs == old(currentArgs) && lastError == old(lastError)
    {
      if EarlyValidChar(key) {
        ok := TypeChar(key);
      } else if key == KeyEnter || key == KeyNewline {
        var _ := Parse();
        enteringDrawCommand := false;
        ok := true;
      } else {
        EditKey(key);
        ok := true;
      }
    }

    /** A printable key: insert before the cursor, or append when it is at the end. */
    method TypeChar(key: int) returns (ok: bool)
      requires EarlyValidChar(key)
      modifies this`currentInput
      ensures ok <==> EarlyKeyStep(old(Editor()), key).Some?
      ensures ok ==> Editor() == EarlyKeyStep(old(Editor()), key).value
      ensures !ok ==> Editor() == old(Editor())
    {
      var size := |currentInput|;
      if cursOffset > 0 {
        if cursOffset > size {
          return false;
        }
        currentInput := InsertAt(currentInput, size - cursOffset, CharOf(key));
      } else {
        currentInput := currentInput + [CharOf(key)];
      }
      ok := true;
    }

    /** The editing keys other than a printable character and Enter. */
    method EditKey(key: int)
      requires !EarlyValidChar(key) && key != KeyEnter && key != KeyNewline
      modifies this`currentInput, this`cursOffset, this`enteringDrawCommand
      ensures EarlyKeyStep(old(Editor()), key).Some? && Editor() == EarlyKeyStep(old(Editor()), key).value
    {
      var size := |currentInput|;
      if key == KeyEscape {
        enteringDrawCommand := false;
      } else if key == KeyLeft {
        if 0 <= cursOffset < size {
          cursOffset := cursOffset + 1;
        }
      } else if key == KeyRight {
        if cursOffset > 0 {
          cursOffset := cursOffset - 1;
        }
      } else if key == KeyBackspace || key == KeyDc {
        if size > 0 {
          if cursOffset > 0 {
            var deletePos := size - cursOffset;
            if deletePos >= 0 {
              currentInput := EraseAt(currentInput, deletePos);
            }
          } else {
            currentInput := currentInput[..size - 1];
          }
          if key == KeyDc {
            cursOffset := cursOffset - 1;
          }
        }
      } else if key == KeyTab {
        currentInput := currentInput + "TAB_WIP";
      }
    }
  }
}
