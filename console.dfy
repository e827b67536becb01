/**
 * The draw-command console of the browser: the draw-expression parser
 * (FirstDrawArg), the command-line parser, the in-place line editor with
 * its history scrollback, and tab completion of branch names.
 */
module Console {
  import opened CppLib
  import opened Definitions

  // ---------------------------------------------------------------------
  // Key codes (the ncurses values) and accepted characters
  // ---------------------------------------------------------------------

  const KeyDown := 258
  const KeyUp := 259
  const KeyLeft := 260
  const KeyRight := 261
  const KeyBackspace := 263
  const KeyDc := 330
  const KeyEnter := 343
  const KeyEscape := 27
  const KeyTab := 9
  const KeyNewline := 10

  /** The punctuation a draw command may contain besides letters and digits. */
  const AllowedChars: string := " \",._<>()[]=!&|?+-*/%:@$"

  /** validChar: a character code in (0, 128) that is alphanumeric or allowed punctuation. */
  function ValidChar(c: int): (valid: bool)
    ensures valid ==> 32 <= c <= 126
  {
    0 < c < 128 && (IsAlnum(c as char) || (c as char) in AllowedChars)
  }

  /** None of the editing keys is a valid character, so each reaches its own case. */
  lemma EditingKeysAreNotChars()
    ensures !ValidChar(KeyDown) && !ValidChar(KeyUp) && !ValidChar(KeyLeft) && !ValidChar(KeyRight)
    ensures !ValidChar(KeyBackspace) && !ValidChar(KeyDc) && !ValidChar(KeyEscape) && !ValidChar(KeyTab)
  {
  }

  // ---------------------------------------------------------------------
  // FirstDrawArg: "var1+var2>>(0, 1, 2, 6)"
  // ---------------------------------------------------------------------

  datatype LimitError = NoError | LimitOrdering | LimitNumber | No3DHists | InsufficientLimits

  datatype FirstDrawArg = FirstDrawArg(expression: string, limits: seq<real>, errorCode: LimitError, hist2d: bool)

  /** FirstDrawArg(""), the value a draw-argument tuple starts with. */
  const EmptyFirstArg := FirstDrawArg("", [], NoError, false)

  /**
   * The runs of digits, '.' and '-' in s[i..] that some other character
   * follows, num being the run already started; a run that reaches the end
   * of s is dropped.
   */
  function LimitRuns(s: string, i: nat, num: string): seq<string>
    requires i <= |s|
    decreases |s| - i
  {
    if i == |s| then []
    else if IsLimitChar(s[i]) then LimitRuns(s, i + 1, num + [s[i]])
    else if num != [] then [num] + LimitRuns(s, i + 1, [])
    else LimitRuns(s, i + 1, [])
  }

  /** Every run is a non-empty string of digits, points and minus signs. */
  lemma {:induction false} LimitRunsShape(s: string, i: nat, num: string)
    requires i <= |s|
    requires forall k :: 0 <= k < |num| ==> IsLimitChar(num[k])
    ensures forall r :: r in LimitRuns(s, i, num) ==> r != [] && forall k :: 0 <= k < |r| ==> IsLimitChar(r[k])
    decreases |s| - i
  {
    if i < |s| {
      if IsLimitChar(s[i]) {
        LimitRunsShape(s, i + 1, num + [s[i]]);
      } else {
        LimitRunsShape(s, i + 1, []);
      }
    }
  }

  /** stod on every run; None when one of them throws std::invalid_argument. */
  function ParseRuns(runs: seq<string>): (r: Option<seq<real>>)
    ensures r.Some? ==> |r.value| == |runs|
    ensures r.Some? <==> forall k :: 0 <= k < |runs| ==> StodRun(runs[k]).Some?
    ensures r.Some? ==> forall k :: 0 <= k < |runs| ==> r.value[k] == StodRun(runs[k]).value
  {
    if runs == [] then Some([])
    else match (StodRun(runs[0]), ParseRuns(runs[1..]))
      case (Some(v), Some(vs)) => Some([v] + vs)
      case _ => None
  }

  /** Values already read prepended to the outcome of reading the rest. */
  function Prepend(done: seq<real>, rest: Option<seq<real>>): Option<seq<real>> {
    if rest.None? then None else Some(done + rest.value)
  }

  /** Reading one more run: it fails when the run is not a number, and otherwise adds its value. */
  lemma FlushRun(values: seq<real>, num: string, runs: seq<string>)
    ensures StodRun(num).None? ==> ParseRuns([num] + runs) == None
    ensures StodRun(num).Some? ==>
      Prepend(values, ParseRuns([num] + runs)) == Prepend(values + [StodRun(num).value], ParseRuns(runs))
  {
    assert ([num] + runs)[0] == num && ([num] + runs)[1..] == runs;
    var rest := ParseRuns(runs);
    if StodRun(num).Some? && rest.Some? {
      var v := StodRun(num).value;
      assert values + ([v] + rest.value) == (values + [v]) + rest.value;
    }
  }

  /** The limit checks: two or four limits, each pair increasing; any other non-zero count is wrong. */
  function ClassifyLimits(limits: seq<real>): LimitError {
    if |limits| == 2 then
      if limits[0] >= limits[1] then LimitOrdering else NoError
    else if |limits| == 4 then
      if limits[0] >= limits[1] || limits[2] >= limits[3] then LimitOrdering else NoError
    else if limits != [] then LimitNumber
    else NoError
  }

  /** std::count of ':'. */
  function ColonCount(s: string): (n: nat)
    ensures n <= |s|
  {
    if s == [] then 0 else (if s[0] == ':' then 1 else 0) + ColonCount(s[1..])
  }

  /**
   * The FirstDrawArg constructor; Failure stands for the
   * std::invalid_argument that stod throws on a run such as "-" or ".".
   */
  function DrawArgOf(ex: string): Result<FirstDrawArg, ConversionError> {
    var beg := FindFrom(ex, ">>(", 0);
    var expression := if beg.None? then ex else ex[..beg.value];
    var parsed := if beg.None? then Some([]) else ParseRuns(LimitRuns(ex, beg.value + 3, []));
    if parsed.None? then Failure(InvalidArgument)
    else
      var limits := parsed.value;
      var ncolon := ColonCount(expression);
      if ncolon > 1 then Success(FirstDrawArg(expression, limits, No3DHists, false))
      else if ncolon == 1 && limits != [] && |limits| != 4 then
        Success(FirstDrawArg(expression, limits, InsufficientLimits, false))
      else Success(FirstDrawArg(expression, limits, ClassifyLimits(limits), ncolon == 1))
  }

  /**
   * The error taxonomy: an argument is accepted exactly when it has 0, 2 or
   * 4 limits in increasing pairs and at most one ':', a 2D histogram (one
   * ':') taking 0 or 4 limits; without ">>(" it is the whole text with no limits.
   */
  lemma DrawArgAccepted(ex: string)
    requires DrawArgOf(ex).Success?
    ensures var a := DrawArgOf(ex).value;
      a.errorCode == NoError <==>
        ColonCount(a.expression) <= 1 &&
        (|a.limits| == 0 || (|a.limits| == 2 && a.limits[0] < a.limits[1]) ||
         (|a.limits| == 4 && a.limits[0] < a.limits[1] && a.limits[2] < a.limits[3])) &&
        (ColonCount(a.expression) == 1 ==> |a.limits| == 0 || |a.limits| == 4)
    ensures var a := DrawArgOf(ex).value; a.hist2d <==> ColonCount(a.expression) == 1 && (|a.limits| == 0 || |a.limits| == 4)
    ensures FindFrom(ex, ">>(", 0).None? ==> DrawArgOf(ex).value.expression == ex && DrawArgOf(ex).value.limits == []
  {
  }

  /** The constructor's loop: the limits are read as the runs end; None when stod throws on one. */
  method ReadLimits(ex: string, from: nat) returns (limits: Option<seq<real>>)
    requires from <= |ex|
    ensures limits == ParseRuns(LimitRuns(ex, from, []))
  {
    var values: seq<real> := [];
    var num: string := [];
    var i := from;
    ghost var all := ParseRuns(LimitRuns(ex, i, num));
    if all.Some? {
      assert [] + all.value == all.value;
    }
    while i < |ex|
      invariant from <= i <= |ex|
      invariant ParseRuns(LimitRuns(ex, from, [])) == Prepend(values, ParseRuns(LimitRuns(ex, i, num)))
      decreases |ex| - i
    {
      if IsLimitChar(ex[i]) {
        num := num + [ex[i]];
      } else if num != [] {
        var v := StodRun(num);
        assert LimitRuns(ex, i, num) == [num] + LimitRuns(ex, i + 1, []);
        FlushRun(values, num, LimitRuns(ex, i + 1, []));
        if v.None? {
          return None;
        }
        values := values + [v.value];
        num := [];
      }
      i := i + 1;
    }
    assert values + [] == values;
    limits := Some(values);
  }

  /** The FirstDrawArg constructor. */
  method NewFirstDrawArg(ex: string) returns (r: Result<FirstDrawArg, ConversionError>)
    ensures r == DrawArgOf(ex)
  {
    var beg := FindFrom(ex, ">>(", 0);
    var expression := ex;
    var limits: seq<real> := [];
    if beg.Some? {
      expression := ex[..beg.value];
      var read := ReadLimits(ex, beg.value + 3);
      if read.None? {
        return Failure(InvalidArgument);
      }
      limits := read.value;
    }
    var ncolon := ColonCount(expression);
    var code := ClassifyLimits(limits);
    var hist2d := false;
    if ncolon > 0 {
      if ncolon > 1 {
        code := No3DHists;
      } else if limits != [] && |limits| != 4 {
        code := InsufficientLimits;
      } else {
        hist2d := true;
      }
    }
    r := Success(FirstDrawArg(expression, limits, code, hist2d));
  }

  // ---------------------------------------------------------------------
  // parse: stripping and comma tokenising
  // ---------------------------------------------------------------------

  predicate Stripped(c: char) { c == ' ' || c == '"' }

  /** The input without spaces and double quotes. */
  function Strip(s: string): string {
    if s == [] then [] else (if Stripped(s[0]) then [] else [s[0]]) + Strip(s[1..])
  }

  /** Stripping leaves no space or quote and keeps a clean string as it is. */
  lemma {:induction false} StripClean(s: string)
    ensures forall k :: 0 <= k < |Strip(s)| ==> !Stripped(Strip(s)[k])
    ensures (forall k :: 0 <= k < |s| ==> !Stripped(s[k])) ==> Strip(s) == s
  {
    if s != [] {
      StripClean(s[1..]);
      var head := if Stripped(s[0]) then [] else [s[0]];
      assert Strip(s) == head + Strip(s[1..]);
      if forall k :: 0 <= k < |s| ==> !Stripped(s[k]) {
        assert forall k :: 0 <= k < |s[1..]| ==> !Stripped(s[1..][k]) by {
          forall k | 0 <= k < |s[1..]| ensures !Stripped(s[1..][k]) {
            assert s[1..][k] == s[k + 1];
          }
        }
        assert [s[0]] + s[1..] == s;
      }
    }
  }

  /** Stripping twice is stripping once. */
  lemma StripIdempotent(s: string)
    ensures Strip(Strip(s)) == Strip(s)
  {
    StripClean(s);
    StripClean(Strip(s));
  }

  /** The erase loop of parse. */
  method StripInPlace(s0: string) returns (s: string)
    ensures s == Strip(s0)
  {
    s := s0;
    var i := 0;
    while i < |s|
      invariant 0 <= i <= |s|
      invariant Strip(s0) == s[..i] + Strip(s[i..])
      decreases |s| - i
    {
      assert Strip(s[i..]) == (if Stripped(s[i]) then [] else [s[i]]) + Strip(s[i + 1..]) by {
        assert s[i..][0] == s[i] && s[i..][1..] == s[i + 1..];
      }
      if Stripped(s[i]) {
        assert (s[..i] + s[i + 1..])[..i] == s[..i] && (s[..i] + s[i + 1..])[i..] == s[i + 1..];
        s := s[..i] + s[i + 1..];
      } else {
        assert s[..i + 1] == s[..i] + [s[i]];
        i := i + 1;
      }
    }
  }

  /** The comma tokens of s: splitting on ','. */
  function Split(s: string): (tokens: seq<string>)
    ensures |tokens| >= 1
    decreases |s|
  {
    if s == [] then [""]
    else
      var init := Split(s[..|s| - 1]);
      var c := s[|s| - 1];
      if c == ',' then init + [""] else init[..|init| - 1] + [init[|init| - 1] + [c]]
  }

  /** Tokens joined back with commas. */
  function Join(tokens: seq<string>): string
    requires |tokens| >= 1
    decreases |tokens|
  {
    if |tokens| == 1 then tokens[0] else Join(tokens[..|tokens| - 1]) + "," + tokens[|tokens| - 1]
  }

  predicate CommaFree(t: string) { forall k :: 0 <= k < |t| ==> t[k] != ',' }

  /** One more token at the end of a join. */
  lemma JoinSnoc(ts: seq<string>, t: string)
    requires |ts| >= 1
    ensures Join(ts + [t]) == Join(ts) + "," + t
  {
    var us := ts + [t];
    assert us[..|us| - 1] == ts && us[|us| - 1] == t;
  }

  /** A character appended to the last token is appended to the join. */
  lemma JoinExtendLast(front: seq<string>, last: string, c: char)
    ensures Join(front + [last + [c]]) == Join(front + [last]) + [c]
  {
    if front == [] {
      assert [] + [last + [c]] == [last + [c]] && [] + [last] == [last];
    } else {
      JoinSnoc(front, last + [c]);
      JoinSnoc(front, last);
      var joined := Join(front);
      assert joined + "," + (last + [c]) == (joined + "," + last) + [c];
    }
  }

  /** Splitting then joining gives the input back. */
  lemma {:induction false} JoinSplit(s: string)
    ensures Join(Split(s)) == s
    decreases |s|
  {
    if s != [] {
      var init := s[..|s| - 1];
      var c := s[|s| - 1];
      assert s == init + [c];
      JoinSplit(init);
      var ts := Split(init);
      if c == ',' {
        SplitComma(init);
        JoinSnoc(ts, "");
        assert Join(ts) + "," + "" == s;
      } else {
        SplitChar(init, c);
        var last := ts[|ts| - 1];
        assert ts[..|ts| - 1] + [last] == ts;
        JoinExtendLast(ts[..|ts| - 1], last, c);
      }
    }
  }

  /** No token of a split holds a comma. */
  lemma {:induction false} SplitCommaFree(s: string)
    ensures forall k :: 0 <= k < |Split(s)| ==> CommaFree(Split(s)[k])
    decreases |s|
  {
    if s != [] {
      var init := s[..|s| - 1];
      var c := s[|s| - 1];
      assert s == init + [c];
      SplitCommaFree(init);
      var ts := Split(init);
      var us := Split(s);
      if c == ',' {
        SplitComma(init);
        forall k | 0 <= k < |us| ensures CommaFree(us[k]) {
          if k < |ts| {
            assert us[k] == ts[k];
          }
        }
      } else {
        SplitChar(init, c);
        var last := ts[|ts| - 1];
        forall k | 0 <= k < |us| ensures CommaFree(us[k]) {
          if k < |ts| - 1 {
            assert us[k] == ts[k];
          } else {
            forall j | 0 <= j < |last + [c]| ensures (last + [c])[j] != ',' {
              if j < |last| {
                assert (last + [c])[j] == last[j];
              }
            }
          }
        }
      }
    }
  }

  /** A character other than ',' extends the last token. */
  lemma SplitChar(x: string, c: char)
    requires c != ','
    ensures var ts := Split(x); Split(x + [c]) == ts[..|ts| - 1] + [ts[|ts| - 1] + [c]]
  {
    assert (x + [c])[..|x + [c]| - 1] == x;
  }

  /** Splitting s + t for a comma-free t: t continues the last token of s. */
  lemma {:induction false} SplitExtend(s: string, t: string)
    requires CommaFree(t)
    ensures var ts := Split(s); Split(s + t) == ts[..|ts| - 1] + [ts[|ts| - 1] + t]
    decreases |t|
  {
    var ts := Split(s);
    if t == [] {
      assert s + t == s && ts[|ts| - 1] + t == ts[|ts| - 1];
      assert ts[..|ts| - 1] + [ts[|ts| - 1]] == ts;
    } else {
      var init := t[..|t| - 1];
      var c := t[|t| - 1];
      var last := ts[|ts| - 1];
      assert t == init + [c];
      assert s + t == (s + init) + [c];
      assert last + t == (last + init) + [c];
      assert CommaFree(init) by {
        forall k | 0 <= k < |init| ensures init[k] != ',' {
          assert init[k] == t[k];
        }
      }
      SplitExtend(s, init);
      SplitChar(s + init, c);
      var us := Split(s + init);
      assert us[..|us| - 1] == ts[..|ts| - 1];
    }
  }

  /** A trailing comma opens an empty token. */
  lemma SplitComma(s: string)
    ensures Split(s + ",") == Split(s) + [""]
  {
    var t := s + ",";
    assert t[..|t| - 1] == s && t[|t| - 1] == ',';
  }

  /** A comma-free string is a single token. */
  lemma SplitSingle(t: string)
    requires CommaFree(t)
    ensures Split(Join([t])) == [t]
  {
    SplitExtend([], t);
    assert [] + t == t && "" + t == t;
  }

  /** One more comma-free token at the end of a join is split off as the last token. */
  lemma SplitJoinStep(init: seq<string>, last: string)
    requires |init| >= 1 && CommaFree(last) && Split(Join(init)) == init
    ensures Split(Join(init + [last])) == init + [last]
  {
    var tokens := init + [last];
    assert tokens[..|tokens| - 1] == init && tokens[|tokens| - 1] == last;
    var front := Join(init) + ",";
    assert Join(tokens) == front + last;
    SplitComma(Join(init));
    SplitExtend(front, last);
    var sf := Split(front);
    assert sf[..|sf| - 1] == init && sf[|sf| - 1] + last == last;
  }

  /** Joining comma-free tokens and splitting gives the tokens back. */
  lemma {:induction false} SplitJoin(tokens: seq<string>)
    requires |tokens| >= 1 && forall k :: 0 <= k < |tokens| ==> CommaFree(tokens[k])
    ensures Split(Join(tokens)) == tokens
    decreases |tokens|
  {
    var n := |tokens|;
    var last := tokens[n - 1];
    if n == 1 {
      assert tokens == [last];
      SplitSingle(last);
    } else {
      var init := tokens[..n - 1];
      assert tokens == init + [last];
      assert forall k :: 0 <= k < |init| ==> CommaFree(init[k]) by {
        forall k | 0 <= k < |init| ensures CommaFree(init[k]) {
          assert init[k] == tokens[k];
        }
      }
      SplitJoin(init);
      SplitJoinStep(init, last);
    }
  }

  /** A character other than ',' that no token holds does not occur in their join. */
  lemma {:induction false} JoinAvoids(tokens: seq<string>, c: char)
    requires |tokens| >= 1 && c != ','
    requires forall k :: 0 <= k < |tokens| ==> c !in tokens[k]
    ensures c !in Join(tokens)
    decreases |tokens|
  {
    if |tokens| > 1 {
      JoinAvoids(tokens[..|tokens| - 1], c);
    }
  }

  /** The first token extended by the tokens of the rest (the first of them continues it). */
  function Glue(first: string, tokens: seq<string>): (r: seq<string>)
    requires |tokens| >= 1
    ensures |r| == |tokens|
  {
    [first + tokens[0]] + tokens[1..]
  }

  /** One more character: a comma opens a token, anything else extends the last one. */
  lemma GlueStep(first: string, x: string, ch: char)
    ensures var g := Glue(first, Split(x));
      Glue(first, Split(x + [ch])) ==
        if ch == ',' then g + [""] else g[..|g| - 1] + [g[|g| - 1] + [ch]]
  {
    if ch == ',' {
      assert [ch] == ",";
      GlueComma(first, x);
    } else {
      GlueChar(first, x, ch);
    }
  }

  /** GlueStep for a comma. */
  lemma GlueComma(first: string, x: string)
    ensures Glue(first, Split(x + ",")) == Glue(first, Split(x)) + [""]
  {
    var ts := Split(x);
    SplitComma(x);
    assert (ts + [""])[1..] == ts[1..] + [""];
  }

  /** GlueStep for any other character. */
  lemma GlueChar(first: string, x: string, ch: char)
    requires ch != ','
    ensures var g := Glue(first, Split(x));
      Glue(first, Split(x + [ch])) == g[..|g| - 1] + [g[|g| - 1] + [ch]]
  {
    SplitChar(x, ch);
    GlueExtendLast(first, Split(x), ch);
  }

  /** Extending the last token extends the last glued token. */
  lemma GlueExtendLast(first: string, ts: seq<string>, ch: char)
    requires |ts| >= 1
    ensures var g := Glue(first, ts);
      Glue(first, ts[..|ts| - 1] + [ts[|ts| - 1] + [ch]]) == g[..|g| - 1] + [g[|g| - 1] + [ch]]
  {
    var us := ts[..|ts| - 1] + [ts[|ts| - 1] + [ch]];
    var g := Glue(first, ts);
    if |ts| == 1 {
      assert us == [ts[0] + [ch]];
      assert first + (ts[0] + [ch]) == (first + ts[0]) + [ch];
    } else {
      assert us[0] == ts[0] && us[1..] == ts[1..|ts| - 1] + [ts[|ts| - 1] + [ch]];
      assert g[..|g| - 1] == [first + ts[0]] + ts[1..|ts| - 1];
    }
  }

  /** The tokens after one more character of s, as the loop of parse extends them. */
  lemma TokenizeStep(s: string, offset: nat, c: nat, first: string, tokens: seq<string>)
    requires offset <= c < |s| && tokens == Glue(first, Split(s[offset..c]))
    ensures Glue(first, Split(s[offset..c + 1])) ==
      if s[c] == ',' then tokens + [""] else tokens[..|tokens| - 1] + [tokens[|tokens| - 1] + [s[c]]]
  {
    assert s[offset..c + 1] == s[offset..c] + [s[c]];
    GlueStep(first, s[offset..c], s[c]);
  }

  /** Before the loop, the only token is first. */
  lemma TokenizeStart(s: string, offset: nat, first: string)
    requires offset <= |s|
    ensures Glue(first, Split(s[offset..offset])) == [first]
  {
    assert s[offset..offset] == [];
    assert first + "" == first;
  }

  /** The tokenising loop of parse from index offset, the first token already holding first. */
  method Tokenize(s: string, offset: nat, first: string) returns (tokens: seq<string>)
    requires offset <= |s|
    ensures tokens == Glue(first, Split(s[offset..]))
  {
    tokens := [first];
    var c := offset;
    TokenizeStart(s, offset, first);
    while c < |s|
      invariant offset <= c <= |s|
      invariant tokens == Glue(first, Split(s[offset..c]))
    {
      TokenizeStep(s, offset, c, first, tokens);
      if s[c] == ',' {
        tokens := tokens + [""];
      } else {
        tokens := tokens[..|tokens| - 1] + [tokens[|tokens| - 1] + [s[c]]];
      }
      c := c + 1;
    }
    assert s[offset..c] == s[offset..];
  }

  /**
   * The tokens of a stripped input, None for "Syntax error": with ">>(" the
   * first token runs to the next ')' and tokenising resumes at that ')'.
   */
  function TokensOf(s: string): (r: Option<seq<string>>)
    ensures r.Some? ==> |r.value| >= 1
  {
    if StringContains(s, ">>(") then
      var start := FindFrom(s, ">>(", 0).value;
      match FindFrom(s, ")", start)
      case None => None
      case Some(end) => Some(Glue(s[..end + 1], Split(s[end..])))
    else Some(Split(s))
  }

  // ---------------------------------------------------------------------
  // parse: the draw arguments
  // ---------------------------------------------------------------------

  /** TVirtualTreePlayer::kMaxEntries, the largest Long64_t. */
  const MaxEntries := Int64Max

  /** The draw arguments: expression, selection, option, number of entries, first entry. */
  datatype DrawArgs = DrawArgs(first: FirstDrawArg, selection: string, option: string, nentries: int, firstEntry: int)

  /** The arguments parse resets to before reading the tokens. */
  const DefaultArgs := DrawArgs(EmptyFirstArg, "", "goff", MaxEntries, 0)

  /** The outcome of parse; Aborted stands for the stod exception that escapes it. */
  datatype ParseOutcome = Aborted | Parsed(valid: bool, args: DrawArgs, error: Option<string>)

  function LimitMessage(code: LimitError): string {
    match code
    case NoError => ""
    case LimitOrdering => "Invalid hist limits: min < max is required."
    case LimitNumber => "Fixed binning! Specify 2 or 4 limit arguments for X and Y."
    case No3DHists => "Cannot draw 3D histograms :("
    case InsufficientLimits => "Zero or Four limits are required to draw a 2d histogram "
  }

  /** Token k read with stoll if present: its value, or the fallback and an error message. */
  function EntryArgument(tokens: seq<string>, k: nat, fallback: int, name: string): (r: (int, Option<string>))
    ensures |tokens| <= k ==> r == (fallback, None)
    ensures |tokens| > k && Stoll(tokens[k]).Success? ==> r == (Stoll(tokens[k]).value, None)
    ensures |tokens| > k && Stoll(tokens[k]).Failure? ==> r.0 == fallback && r.1.Some?
  {
    if |tokens| <= k then (fallback, None)
    else match Stoll(tokens[k])
      case Success(n) => (n, None)
      case Failure(InvalidArgument) => (fallback, Some(name + " must be Long64_t, not \"" + tokens[k] + "\""))
      case Failure(OutOfRange) => (fallback, Some(name + " out of range [0," + Int64MaxText + "]"))
  }

  /** What parse makes of a non-empty stripped input. */
  function ParseSpec(s: string): (p: ParseOutcome)
    ensures p.Aborted? ==> TokensOf(s).Some?
    ensures TokensOf(s).None? ==> p.Parsed? && p.error == Some("Syntax error")
    ensures p.Parsed? ==> (p.valid <==> p.error.None?)
    ensures p.Parsed? && p.valid ==> p.args.first.errorCode == NoError
  {
    match TokensOf(s)
    case None => Parsed(false, DefaultArgs, Some("Syntax error"))
    case Some(tokens) =>
      match DrawArgOf(tokens[0])
      case Failure(_) => Aborted
      case Success(first) =>
        if first.errorCode != NoError then
          Parsed(false, DefaultArgs.(first := first), Some(LimitMessage(first.errorCode)))
        else
          var selection := if |tokens| >= 2 then tokens[1] else "";
          var option := if |tokens| >= 3 then tokens[2] else "goff";
          var (nentries, error4) := EntryArgument(tokens, 3, MaxEntries, "Argument 4 (nentries)");
          var (firstEntry, error5) := EntryArgument(tokens, 4, 0, "Argument 5 (firstentry)");
          Parsed(error4.None? && error5.None?, DrawArgs(first, selection, option, nentries, firstEntry),
                 if error5.Some? then error5 else error4)
  }

  /** Text without '>' holds no ">>(" marker. */
  lemma NoMarker(s: string)
    requires '>' !in s
    ensures !StringContains(s, ">>(") && FindFrom(s, ">>(", 0).None?
  {
    forall i | 0 <= i && i + 3 <= |s| ensures !OccursAt(s, ">>(", i) {
      assert s[i..i + 3][0] == s[i];
    }
  }

  /** Decimal text holds neither a comma nor a '>'. */
  lemma IntToStringPlain(n: int)
    ensures CommaFree(IntToString(n)) && '>' !in IntToString(n)
  {
    var s := IntToString(n);
    if n < 0 {
      assert forall k :: 1 <= k < |s| ==> s[k] == s[1..][k - 1];
    }
  }

  /** A plain expression is accepted with no limits, as a 2D histogram when it holds one ':'. */
  lemma PlainDrawArg(expression: string)
    requires '>' !in expression && ColonCount(expression) <= 1
    ensures DrawArgOf(expression) == Success(FirstDrawArg(expression, [], NoError, ColonCount(expression) == 1))
  {
    NoMarker(expression);
  }

  /**
   * A command written as expression, selection, option and two 64-bit
   * integers separated by commas parses back to exactly those arguments.
   */
  lemma ParseRoundTrip(expression: string, selection: string, option: string, nentries: int, firstEntry: int)
    requires CommaFree(expression) && CommaFree(selection) && CommaFree(option)
    requires '>' !in expression && '>' !in selection && '>' !in option
    requires ColonCount(expression) <= 1
    requires Int64Min <= nentries <= Int64Max && Int64Min <= firstEntry <= Int64Max
    ensures ParseSpec(Join([expression, selection, option, IntToString(nentries), IntToString(firstEntry)])) ==
      Parsed(true, DrawArgs(FirstDrawArg(expression, [], NoError, ColonCount(expression) == 1),
                            selection, option, nentries, firstEntry), None)
  {
    var tokens := [expression, selection, option, IntToString(nentries), IntToString(firstEntry)];
    IntToStringPlain(nentries);
    IntToStringPlain(firstEntry);
    forall k | 0 <= k < |tokens| ensures CommaFree(tokens[k]) && '>' !in tokens[k] {
      if k == 0 { assert tokens[k] == expression; }
      else if k == 1 { assert tokens[k] == selection; }
      else if k == 2 { assert tokens[k] == option; }
      else if k == 3 { assert tokens[k] == IntToString(nentries); }
      else { assert tokens[k] == IntToString(firstEntry); }
    }
    var s := Join(tokens);
    PlainTokens(tokens);
    PlainDrawArg(expression);
    StollOfIntToString(nentries);
    StollOfIntToString(firstEntry);
    ParseOfFiveTokens(s, tokens);
  }

  /** Tokens free of ',' and '>' joined with commas tokenise back to themselves. */
  lemma PlainTokens(tokens: seq<string>)
    requires |tokens| >= 1
    requires forall k :: 0 <= k < |tokens| ==> CommaFree(tokens[k]) && '>' !in tokens[k]
    ensures TokensOf(Join(tokens)) == Some(tokens)
  {
    SplitJoin(tokens);
    JoinAvoids(tokens, '>');
    NoMarker(Join(tokens));
  }

  /** Five tokens with a valid first argument and two integers are accepted as they are. */
  lemma ParseOfFiveTokens(s: string, tokens: seq<string>)
    requires TokensOf(s) == Some(tokens) && |tokens| == 5
    requires DrawArgOf(tokens[0]).Success? && DrawArgOf(tokens[0]).value.errorCode == NoError
    requires Stoll(tokens[3]).Success? && Stoll(tokens[4]).Success?
    ensures ParseSpec(s) == Parsed(true, DrawArgs(DrawArgOf(tokens[0]).value, tokens[1], tokens[2],
                                                  Stoll(tokens[3]).value, Stoll(tokens[4]).value), None)
  {
  }

  /**
   * What parse leaves behind for an outcome p, from arguments args0, error
   * message error0 and flag hasCommand0: an abort keeps them and throws;
   * otherwise the arguments and has_command are the outcome's, an error
   * message replaces the old one, and the outcome's validity is returned.
   */
  predicate OutcomeApplied(p: ParseOutcome, r: Result<bool, ConversionError>, args: DrawArgs, error: string, hasCommand: bool,
                           args0: DrawArgs, error0: string, hasCommand0: bool)
  {
    match p
    case Aborted => r.Failure? && args == args0 && error == error0 && hasCommand == hasCommand0
    case Parsed(valid, pargs, perror) =>
      r == Success(valid) && args == pargs && hasCommand == valid &&
      error == (if perror.Some? then perror.value else error0)
  }

  /** The command history after parse: an accepted command joins it unless it repeats the last entry. */
  predicate HistoryAfter(history0: seq<string>, count0: int, accepted: bool, command: string, history: seq<string>, count: int) {
    if accepted && (history0 == [] || history0[|history0| - 1] != command) then
      history == history0 + [command] && count == count0 + 1
    else history == history0 && count == count0
  }

  /** Tokenising, the first argument and the two integer arguments of parse. */
  method ParseCommand(s: string) returns (p: ParseOutcome)
    ensures p == ParseSpec(s)
  {
    var tokens: seq<string>;
    if StringContains(s, ">>(") {
      var start := FindFrom(s, ">>(", 0).value;
      var end := FindFrom(s, ")", start);
      if end.None? {
        return Parsed(false, DefaultArgs, Some("Syntax error"));
      }
      tokens := Tokenize(s, end.value, s[..end.value + 1]);
    } else {
      tokens := Tokenize(s, 0, "");
      assert s[0..] == s;
      assert "" + Split(s)[0] == Split(s)[0];
      assert Glue("", Split(s)) == Split(s);
    }
    assert TokensOf(s) == Some(tokens);
    var first := NewFirstDrawArg(tokens[0]);
    if first.Failure? {
      return Aborted;
    }
    if first.value.errorCode != NoError {
      return Parsed(false, DefaultArgs.(first := first.value), Some(LimitMessage(first.value.errorCode)));
    }
    var selection := if |tokens| >= 2 then tokens[1] else "";
    var option := if |tokens| >= 3 then tokens[2] else "goff";
    var (nentries, error4) := EntryArgument(tokens, 3, MaxEntries, "Argument 4 (nentries)");
    var (firstEntry, error5) := EntryArgument(tokens, 4, 0, "Argument 5 (firstentry)");
    var error := if error5.Some? then error5 else error4;
    p := Parsed(error4.None? && error5.None?, DrawArgs(first.value, selection, option, nentries, firstEntry), error);
  }

  // ---------------------------------------------------------------------
  // Tab completion
  // ---------------------------------------------------------------------

  predicate IsIdentChar(c: char) { IsAlnum(c) || c == '_' }

  /** Where the identifier that ends s begins. */
  function IdentStart(s: string): (start: nat)
    ensures start <= |s|
    ensures forall k :: start <= k < |s| ==> IsIdentChar(s[k])
    ensures start == 0 || !IsIdentChar(s[start - 1])
    decreases |s|
  {
    if s == [] || !IsIdentChar(s[|s| - 1]) then |s| else IdentStart(s[..|s| - 1])
  }

  /** The branch names that start with partial, in order. */
  function Matches(names: seq<string>, partial: string): (ms: seq<string>)
    ensures forall m :: m in ms <==> m in names && partial <= m
    decreases |names|
  {
    if names == [] then []
    else
      var init := Matches(names[..|names| - 1], partial);
      var name := names[|names| - 1];
      assert names == names[..|names| - 1] + [name];
      if partial <= name then init + [name] else init
  }

  /** The common prefix of a and b (std::mismatch, then erase). */
  function CommonPrefix(a: string, b: string): (c: string)
    ensures c <= a && c <= b
  {
    if a == [] || b == [] || a[0] != b[0] then [] else [a[0]] + CommonPrefix(a[1..], b[1..])
  }

  /** A string prefixes the common prefix exactly when it prefixes both. */
  lemma {:induction false} CommonPrefixIsLongest(a: string, b: string, p: string)
    ensures p <= CommonPrefix(a, b) <==> p <= a && p <= b
  {
    if p != [] && a != [] && b != [] && a[0] == b[0] {
      CommonPrefixIsLongest(a[1..], b[1..], p[1..]);
      if p <= a && p <= b {
        assert p[1..] <= a[1..] && p[1..] <= b[1..];
        assert p == [p[0]] + p[1..];
      }
      if p <= CommonPrefix(a, b) {
        assert p[1..] <= CommonPrefix(a[1..], b[1..]);
        assert a == [a[0]] + a[1..] && b == [b[0]] + b[1..];
      }
    }
  }

  /** The common prefix of the matches, folded left to right. */
  function Lcp(ms: seq<string>): string
    requires |ms| >= 1
    decreases |ms|
  {
    if |ms| == 1 then ms[0] else CommonPrefix(Lcp(ms[..|ms| - 1]), ms[|ms| - 1])
  }

  /** Lcp is the longest common prefix: p prefixes it exactly when p prefixes every match. */
  lemma {:induction false} LcpIsLongest(ms: seq<string>, p: string)
    requires |ms| >= 1
    ensures p <= Lcp(ms) <==> forall k :: 0 <= k < |ms| ==> p <= ms[k]
    decreases |ms|
  {
    if |ms| > 1 {
      var init := ms[..|ms| - 1];
      LcpIsLongest(init, p);
      CommonPrefixIsLongest(Lcp(init), ms[|ms| - 1], p);
      AllPrefixedStep(ms, init, p);
    }
  }

  /** p prefixes every string of ms exactly when it prefixes all but the last and the last. */
  lemma AllPrefixedStep(ms: seq<string>, init: seq<string>, p: string)
    requires |ms| > 1 && init == ms[..|ms| - 1]
    ensures (forall k :: 0 <= k < |ms| ==> p <= ms[k]) <==>
            (forall k :: 0 <= k < |init| ==> p <= init[k]) && p <= ms[|ms| - 1]
  {
    assert forall k :: 0 <= k < |init| ==> init[k] == ms[k];
  }

  /** The loop that shortens the candidate; it stops once it is empty. */
  method LongestCommonPrefix(ms: seq<string>) returns (common: string)
    requires |ms| >= 1
    ensures common == Lcp(ms)
  {
    common := ms[0];
    var i := 1;
    while i < |ms|
      invariant 1 <= i <= |ms|
      invariant common == Lcp(ms[..i])
    {
      assert ms[..i + 1][..i] == ms[..i];
      common := CommonPrefix(common, ms[i]);
      i := i + 1;
      if common == [] {
        LcpIsLongest(ms, Lcp(ms));
        LcpIsLongest(ms[..i], Lcp(ms));
        assert forall k :: 0 <= k < i ==> ms[..i][k] == ms[k];
        return;
      }
    }
    assert ms[..i] == ms;
  }

  /** The matching loop. */
  method CollectMatches(names: seq<string>, partial: string) returns (ms: seq<string>)
    ensures ms == Matches(names, partial)
  {
    ms := [];
    var i := 0;
    while i < |names|
      invariant 0 <= i <= |names|
      invariant ms == Matches(names[..i], partial)
    {
      assert names[..i + 1][..i] == names[..i];
      if partial <= names[i] {
        ms := ms + [names[i]];
      }
      i := i + 1;
    }
    assert names[..i] == names;
  }

  /** The backward scan for the identifier that ends the input. */
  method TrailingIdentifier(s: string) returns (start: nat)
    ensures start == IdentStart(s)
  {
    start := |s|;
    while start > 0 && IsIdentChar(s[start - 1])
      invariant start <= |s|
      invariant IdentStart(s) == IdentStart(s[..start])
    {
      assert s[..start - 1] == s[..start][..start - 1];
      start := start - 1;
    }
    assert s[..start] == [] || !IsIdentChar(s[..start][start - 1]);
  }

  /**
   * tabComplete: the identifier at the end of the input replaced by the
   * longest common prefix of the branch names starting with it; None when
   * the input is left alone.
   */
  function TabCompletion(input: string, names: seq<string>): (completed: Option<string>)
    ensures completed.Some? ==> input != [] && IsIdentChar(input[|input| - 1])
    ensures completed.Some? ==>
      |completed.value| > IdentStart(input) && completed.value[..IdentStart(input)] == input[..IdentStart(input)]
  {
    if input == [] || !IsIdentChar(input[|input| - 1]) then None
    else
      var start := IdentStart(input);
      var ms := Matches(names, input[start..]);
      if ms == [] then None
      else
        var common := Lcp(ms);
        if common == [] then None else Some(input[..start] + common)
  }

  /**
   * Completion only ever extends the input, to the longest prefix shared by
   * every branch name that starts with the trailing identifier; it does
   * nothing exactly when the input does not end in an identifier character
   * or no name matches.
   */
  lemma TabCompletionExtends(input: string, names: seq<string>)
    ensures TabCompletion(input, names).None? <==>
      input == [] || !IsIdentChar(input[|input| - 1]) || Matches(names, input[IdentStart(input)..]) == []
    ensures TabCompletion(input, names).Some? ==>
      var start := IdentStart(input);
      var completed := TabCompletion(input, names).value;
      input <= completed && completed[..start] == input[..start] &&
      (forall name :: name in names && input[start..] <= name ==> completed[start..] <= name) &&
      (forall p :: (forall name :: name in names && input[start..] <= name ==> p <= name) ==> |p| <= |completed| - start)
  {
    if input != [] && IsIdentChar(input[|input| - 1]) {
      var start := IdentStart(input);
      var partial := input[start..];
      if Matches(names, partial) != [] {
        CommonPrefixOfMatches(names, partial);
        var common := Lcp(Matches(names, partial));
        assert partial != [];
        var completed := input[..start] + common;
        assert completed[start..] == common;
        assert input == input[..start] + partial;
      }
    }
  }

  /**
   * The longest common prefix of the names starting with partial extends
   * partial, starts every such name, and is the longest prefix that does.
   */
  lemma CommonPrefixOfMatches(names: seq<string>, partial: string)
    requires Matches(names, partial) != []
    ensures var common := Lcp(Matches(names, partial));
      partial <= common &&
      (forall name :: name in names && partial <= name ==> common <= name) &&
      (forall p :: (forall name :: name in names && partial <= name ==> p <= name) ==> |p| <= |common|)
  {
    var ms := Matches(names, partial);
    var common := Lcp(ms);
    assert forall k :: 0 <= k < |ms| ==> ms[k] in ms;
    LcpIsLongest(ms, partial);
    forall name | name in names && partial <= name ensures common <= name {
      LcpIsLongest(ms, common);
      var k :| 0 <= k < |ms| && ms[k] == name;
    }
    forall p | (forall name :: name in names && partial <= name ==> p <= name) ensures |p| <= |common| {
      LcpIsLongest(ms, p);
    }
  }

  // ---------------------------------------------------------------------
  // The line editor
  // ---------------------------------------------------------------------

  /** The editor's part of the console state. */
  datatype EditorState = EditorState(input: string, cursOffset: int, scrollback: int, stash: string, entering: bool)

  /** The cursor stays within the input and the scrollback within the history. */
  predicate EditorOk(e: EditorState, history: seq<string>) {
    0 <= e.cursOffset <= |e.input| && 0 <= e.scrollback <= |history|
  }

  function InsertAt(s: string, i: int, c: char): (r: string)
    requires 0 <= i <= |s|
    ensures |r| == |s| + 1 && r[i] == c && r[..i] == s[..i] && r[i + 1..] == s[i..]
  {
    s[..i] + [c] + s[i..]
  }

  function EraseAt(s: string, i: int): (r: string)
    requires 0 <= i < |s|
    ensures |r| == |s| - 1 && r[..i] == s[..i] && r[i..] == s[i + 1..]
  {
    s[..i] + s[i + 1..]
  }

  /**
   * handleInput, with the cursor kept within the input: recalling a history
   * entry puts the cursor at its end, and delete at the end of the input
   * leaves the cursor where it is.
   */
  function KeyStep(e: EditorState, history: seq<string>, names: seq<string>, key: int): (next: EditorState)
    requires EditorOk(e, history)
    ensures EditorOk(next, history)
  {
    var size := |e.input|;
    if ValidChar(key) then e.(input := InsertAt(e.input, size - e.cursOffset, key as char))
    else if key == KeyEscape then e.(entering := false)
    else if key == KeyLeft then (if e.cursOffset < size then e.(cursOffset := e.cursOffset + 1) else e)
    else if key == KeyRight then (if e.cursOffset > 0 then e.(cursOffset := e.cursOffset - 1) else e)
    else if key == KeyUp then
      if e.scrollback < |history| then
        var back := e.scrollback + 1;
        e.(scrollback := back, stash := if back == 1 then e.input else e.stash,
           input := history[|history| - back], cursOffset := 0)
      else e
    else if key == KeyDown then
      if e.scrollback > 0 then
        var back := e.scrollback - 1;
        e.(scrollback := back, input := if back == 0 then e.stash else history[|history| - back], cursOffset := 0)
      else e
    else if key == KeyBackspace || key == KeyDc then
      if size == 0 then e
      else
        var deletePos := size - e.cursOffset - (if key == KeyBackspace then 1 else 0);
        var input := if e.cursOffset == 0 then e.input[..size - 1]
                     else if deletePos >= 0 then EraseAt(e.input, deletePos) else e.input;
        e.(input := input, cursOffset := if key == KeyDc && e.cursOffset > 0 then e.cursOffset - 1 else e.cursOffset)
    else if key == KeyTab then
      match TabCompletion(e.input, names)
      case None => e
      case Some(completed) => e.(input := completed, cursOffset := 0)
    else e
  }

  /**
   * handleInput as written: history recall keeps the cursor offset, delete
   * at the end of the input moves it below 0, and None stands for the
   * std::out_of_range that insert throws for an offset past the input.
   */
  function KeyStepAsWritten(e: EditorState, history: seq<string>, names: seq<string>, key: int): (next: Option<EditorState>)
    requires 0 <= e.scrollback <= |history|
    ensures next.None? <==> ValidChar(key) && e.cursOffset > |e.input|
    ensures next.Some? ==> 0 <= next.value.scrollback <= |history|
    ensures next.Some? && ValidChar(key) ==> |next.value.input| == |e.input| + 1
  {
    var size := |e.input|;
    if ValidChar(key) then
      if e.cursOffset > 0 then
        if e.cursOffset > size then None else Some(e.(input := InsertAt(e.input, size - e.cursOffset, key as char)))
      else Some(e.(input := e.input + [key as char]))
    else if key == KeyEscape then Some(e.(entering := false))
    else if key == KeyLeft then Some(if e.cursOffset < size then e.(cursOffset := e.cursOffset + 1) else e)
    else if key == KeyRight then Some(if e.cursOffset > 0 then e.(cursOffset := e.cursOffset - 1) else e)
    else if key == KeyUp then
      if e.scrollback < |history| then
        var back := e.scrollback + 1;
        Some(e.(scrollback := back, stash := if back == 1 then e.input else e.stash, input := history[|history| - back]))
      else Some(e)
    else if key == KeyDown then
      if e.scrollback > 0 then
        var back := e.scrollback - 1;
        Some(e.(scrollback := back, input := if back == 0 then e.stash else history[|history| - back]))
      else Some(e)
    else if key == KeyBackspace || key == KeyDc then
      if size == 0 then Some(e)
      else
        var deletePos := size - e.cursOffset - (if key == KeyBackspace then 1 else 0);
        var input := if e.cursOffset <= 0 then e.input[..size - 1]
                     else if deletePos >= 0 then EraseAt(e.input, deletePos) else e.input;
        Some(e.(input := input, cursOffset := if key == KeyDc then e.cursOffset - 1 else e.cursOffset))
    else if key == KeyTab then
      match TabCompletion(e.input, names)
      case None => Some(e)
      case Some(completed) => Some(e.(input := completed, cursOffset := 0))
    else Some(e)
  }

  /** Apart from history recall and delete, the two agree on every well-formed state. */
  lemma KeyStepAgrees(e: EditorState, history: seq<string>, names: seq<string>, key: int)
    requires EditorOk(e, history)
    requires key != KeyUp && key != KeyDown && !(key == KeyDc && e.cursOffset == 0)
    ensures KeyStepAsWritten(e, history, names, key) == Some(KeyStep(e, history, names, key))
  {
    if ValidChar(key) && e.cursOffset == 0 {
      assert InsertAt(e.input, |e.input|, key as char) == e.input + [key as char];
    }
  }

  /**
   * As written, recalling a shorter history entry leaves the cursor offset
   * past its end, and the next typed character makes insert throw.
   */
  lemma HistoryRecallBreaksCursor()
    ensures var e := EditorState("abcdef", 5, 0, "", true);
      var recalled := KeyStepAsWritten(e, ["x"], [], KeyUp);
      recalled == Some(EditorState("x", 5, 1, "abcdef", true)) &&
      !EditorOk(recalled.value, ["x"]) &&
      KeyStepAsWritten(recalled.value, ["x"], [], 'a' as int) == None
    ensures KeyStep(EditorState("abcdef", 5, 0, "", true), ["x"], [], KeyUp) == EditorState("x", 0, 1, "abcdef", true)
  {
    assert ValidChar('a' as int);
    assert !ValidChar(KeyUp);
  }

  /**
   * As written, delete at the end of the input drives the offset to -1, so
   * the next left arrow only brings it back to 0 and the cursor stays put.
   */
  lemma DeleteAtEndBreaksCursor()
    ensures var e := EditorState("ab", 0, 0, "", true);
      var deleted := KeyStepAsWritten(e, [], [], KeyDc);
      deleted == Some(EditorState("a", -1, 0, "", true)) &&
      KeyStepAsWritten(deleted.value, [], [], KeyLeft) == Some(EditorState("a", 0, 0, "", true))
    ensures KeyStep(EditorState("ab", 0, 0, "", true), [], [], KeyDc) == EditorState("a", 0, 0, "", true)
    ensures KeyStep(EditorState("a", 0, 0, "", true), [], [], KeyLeft) == EditorState("a", 1, 0, "", true)
  {
    assert !ValidChar(KeyDc) && !ValidChar(KeyLeft);
    assert "ab"[..1] == "a";
  }

  /** The history after loading: the non-empty lines of the file. */
  function NonEmptyLines(lines: seq<string>): (kept: seq<string>)
    ensures forall k :: 0 <= k < |kept| ==> kept[k] != []
    ensures |kept| <= |lines|
    decreases |lines|
  {
    if lines == [] then []
    else
      var init := NonEmptyLines(lines[..|lines| - 1]);
      if lines[|lines| - 1] == [] then init else init + [lines[|lines| - 1]]
  }

  // ---------------------------------------------------------------------
  // The console
  // ---------------------------------------------------------------------

  class Console {
    var currentInput: string
    var cursOffset: int
    var hasCommand: bool
    var lastError: string
    var enteringDrawCommand: bool
    var currentArgs: DrawArgs
    var commandHistory: seq<string>
    var nCommandsParsed: int
    var historyScrollback: int
    var currentInputStash: string
    var branchNames: seq<string>
    /** max_history_size; its value is not part of this model. */
    const maxHistorySize: nat

    function Editor(): EditorState
      reads this
    {
      EditorState(currentInput, cursOffset, historyScrollback, currentInputStash, enteringDrawCommand)
    }

    /** The cursor within the input and the scrollback within the history. */
    ghost predicate Valid()
      reads this
    {
      EditorOk(Editor(), commandHistory)
    }

    constructor(maxHistorySize: nat)
      ensures currentInput == [] && cursOffset == 0 && !hasCommand && lastError == [] && !enteringDrawCommand
      ensures currentArgs == DrawArgs(EmptyFirstArg, "", "", 0, 0)
      ensures commandHistory == [] && nCommandsParsed == 0 && historyScrollback == 0 && branchNames == []
      ensures this.maxHistorySize == maxHistorySize
      ensures Valid()
    {
      currentInput := [];
      cursOffset := 0;
      hasCommand := false;
      lastError := [];
      enteringDrawCommand := false;
      currentArgs := DrawArgs(EmptyFirstArg, "", "", 0, 0);
      commandHistory := [];
      nCommandsParsed := 0;
      historyScrollback := 0;
      currentInputStash := [];
      branchNames := [];
      this.maxHistorySize := maxHistorySize;
    }

    /**
     * parse: Failure stands for the exception that escapes it. The result
     * always equals has_command, and an accepted command is recorded unless
     * it repeats the last one.
     */
    method Parse() returns (r: Result<bool, ConversionError>)
      modifies this
      ensures old(currentInput) == [] ==>
        r == Success(false) && !hasCommand && currentInput == [] && cursOffset == old(cursOffset) &&
        currentArgs == old(currentArgs) && lastError == old(lastError)
      ensures old(currentInput) != [] ==>
        currentInput == Strip(old(currentInput)) && cursOffset == 0 &&
        OutcomeApplied(ParseSpec(currentInput), r, currentArgs, lastError, hasCommand, DefaultArgs, old(lastError), old(hasCommand))
      ensures r.Success? ==> hasCommand == r.value
      ensures HistoryAfter(old(commandHistory), old(nCommandsParsed), r == Success(true), currentInput, commandHistory, nCommandsParsed)
      ensures historyScrollback == old(historyScrollback) && currentInputStash == old(currentInputStash)
      ensures enteringDrawCommand == old(enteringDrawCommand) && branchNames == old(branchNames)
      ensures old(Valid()) && historyScrollback <= |commandHistory| ==> Valid()
    {
      if currentInput == [] {
        hasCommand := false;
        return Success(false);
      }
      r := ParseInput();
    }

    /** parse of a non-empty input: the input is stripped and read, then the outcome applied. */
    method ParseInput() returns (r: Result<bool, ConversionError>)
      requires currentInput != []
      modifies this`currentInput, this`cursOffset, this`currentArgs, this`lastError, this`hasCommand,
        this`commandHistory, this`nCommandsParsed
      ensures currentInput == Strip(old(currentInput)) && cursOffset == 0
      ensures OutcomeApplied(ParseSpec(currentInput), r, currentArgs, lastError, hasCommand, DefaultArgs, old(lastError), old(hasCommand))
      ensures HistoryAfter(old(commandHistory), old(nCommandsParsed), r == Success(true), currentInput, commandHistory, nCommandsParsed)
    {
      currentInput := StripInPlace(currentInput);
      cursOffset := 0;
      currentArgs := DefaultArgs;
      var p := ParseCommand(currentInput);
      r := ApplyOutcome(p);
    }

    /** The rest of parse once the arguments are read. */
    method ApplyOutcome(p: ParseOutcome) returns (r: Result<bool, ConversionError>)
      modifies this`currentArgs, this`lastError, this`hasCommand, this`commandHistory, this`nCommandsParsed
      ensures OutcomeApplied(p, r, currentArgs, lastError, hasCommand, old(currentArgs), old(lastError), old(hasCommand))
      ensures HistoryAfter(old(commandHistory), old(nCommandsParsed), r == Success(true), currentInput, commandHistory, nCommandsParsed)
    {
      if p.Aborted? {
        return Failure(InvalidArgument);
      }
      currentArgs := p.args;
      if p.error.Some? {
        lastError := p.error.value;
      }
      hasCommand := p.valid;
      if hasCommand {
        if commandHistory == [] || commandHistory[|commandHistory| - 1] != currentInput {
          nCommandsParsed := nCommandsParsed + 1;
          commandHistory := commandHistory + [currentInput];
        }
      }
      r := Success(p.valid);
    }

    /** tabComplete. */
    method TabComplete()
      modifies this`currentInput, this`cursOffset
      ensures TabCompletion(old(currentInput), branchNames).None? ==>
        currentInput == old(currentInput) && cursOffset == old(cursOffset)
      ensures TabCompletion(old(currentInput), branchNames).Some? ==>
        currentInput == TabCompletion(old(currentInput), branchNames).value && cursOffset == 0
    {
      if currentInput == [] || !IsIdentChar(currentInput[|currentInput| - 1]) {
        return;
      }
      var start := TrailingIdentifier(currentInput);
      var partial := currentInput[start..];
      var matches: seq<string> := [];
      if partial != [] {
        matches := CollectMatches(branchNames, partial);
      }
      if matches == [] {
        return;
      }
      var common := LongestCommonPrefix(matches);
      if common != [] {
        currentInput := currentInput[..start] + common;
        cursOffset := 0;
      }
    }

    /** handleInput, with the cursor kept within the input. */
    method HandleInput(key: int)
      requires Valid()
      modifies this`currentInput, this`cursOffset, this`historyScrollback, this`currentInputStash, this`enteringDrawCommand
      ensures Editor() == KeyStep(old(Editor()), old(commandHistory), old(branchNames), key)
      ensures commandHistory == old(commandHistory) && branchNames == old(branchNames)
      ensures hasCommand == old(hasCommand) && lastError == old(lastError) && currentArgs == old(currentArgs)
      ensures nCommandsParsed == old(nCommandsParsed)
      ensures Valid()
    {
      var size := |currentInput|;
      if ValidChar(key) {
        currentInput := InsertAt(currentInput, size - cursOffset, key as char);
      } else if key == KeyEscape {
        enteringDrawCommand := false;
      } else if key == KeyLeft {
        if cursOffset < size {
          cursOffset := cursOffset + 1;
        }
      } else if key == KeyRight {
        if cursOffset > 0 {
          cursOffset := cursOffset - 1;
        }
      } else if key == KeyUp {
        HistoryBack();
      } else if key == KeyDown {
        HistoryForward();
      } else if key == KeyBackspace || key == KeyDc {
        DeleteChar(key);
      } else if key == KeyTab {
        TabComplete();
      }
    }

    /** KEY_UP: one entry further back in the history, stashing the input on the first step. */
    method HistoryBack()
      requires Valid()
      modifies this`currentInput, this`cursOffset, this`historyScrollback, this`currentInputStash
      ensures Editor() == KeyStep(old(Editor()), commandHistory, branchNames, KeyUp)
    {
      if historyScrollback < |commandHistory| {
        historyScrollback := historyScrollback + 1;
        if historyScrollback == 1 {
          currentInputStash := currentInput;
        }
        currentInput := commandHistory[|commandHistory| - historyScrollback];
        cursOffset := 0;
      }
    }

    /** KEY_DOWN: one entry forward in the history, back to the stashed input at the end. */
    method HistoryForward()
      requires Valid()
      modifies this`currentInput, this`cursOffset, this`historyScrollback
      ensures Editor() == KeyStep(old(Editor()), commandHistory, branchNames, KeyDown)
    {
      if historyScrollback > 0 {
        historyScrollback := historyScrollback - 1;
        if historyScrollback == 0 {
          currentInput := currentInputStash;
        } else {
          currentInput := commandHistory[|commandHistory| - historyScrollback];
        }
        cursOffset := 0;
      }
    }

    /** KEY_BACKSPACE and KEY_DC: erase before or under the cursor; with the cursor at the end, the last character. */
    method DeleteChar(key: int)
      requires Valid() && (key == KeyBackspace || key == KeyDc)
      modifies this`currentInput, this`cursOffset
      ensures Editor() == KeyStep(old(Editor()), commandHistory, branchNames, key)
    {
      var size := |currentInput|;
      if size > 0 {
        if cursOffset > 0 {
          var deletePos := size - cursOffset - (if key == KeyBackspace then 1 else 0);
          if deletePos >= 0 {
            currentInput := EraseAt(currentInput, deletePos);
          }
        } else {
          currentInput := currentInput[..size - 1];
        }
        if key == KeyDc && cursOffset > 0 {
          cursOffset := cursOffset - 1;
        }
      }
    }

    /** cursorMove: put the cursor on character pos of the input, if there is one. */
    method CursorMove(pos: int)
      modifies this`cursOffset
      ensures 0 <= pos < |currentInput| ==> cursOffset == |currentInput| - pos
      ensures !(0 <= pos < |currentInput|) ==> cursOffset == old(cursOffset)
      ensures old(Valid()) ==> Valid()
    {
      if 0 <= pos < |currentInput| {
        cursOffset := |currentInput| - pos;
      }
    }

    /** setTabCompletionDict: the names of the menu items are added to the branch names. */
    method SetTabCompletionDict(names: seq<string>)
      modifies this`branchNames
      ensures branchNames == old(branchNames) + names
    {
      branchNames := branchNames + names;
    }

    /**
     * loadCommandHistory, given the lines of the history file: the non-empty
     * lines, of which only the newest max_history_size are kept.
     */
    method LoadCommandHistory(lines: seq<string>)
      modifies this`commandHistory
      ensures var kept := NonEmptyLines(lines);
        commandHistory == if |kept| > maxHistorySize then kept[|kept| - maxHistorySize..] else kept
      ensures |commandHistory| <= maxHistorySize
      ensures old(Valid()) && historyScrollback == 0 ==> Valid()
    {
      commandHistory := [];
      var i := 0;
      while i < |lines|
        invariant 0 <= i <= |lines|
        invariant commandHistory == NonEmptyLines(lines[..i])
      {
        assert lines[..i + 1][..i] == lines[..i];
        if lines[i] != [] {
          commandHistory := commandHistory + [lines[i]];
        }
        i := i + 1;
      }
      assert lines[..i] == lines;
      if |commandHistory| > maxHistorySize {
        commandHistory := commandHistory[|commandHistory| - maxHistorySize..];
      }
    }
  }
}
