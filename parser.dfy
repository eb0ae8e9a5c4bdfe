/**
 * The argument parsers of the command layer (src/primitive_db/parser.py):
 * `parse_where_clause`, `parse_set_clause` and `parse_values`, and the
 * literal-typing rule the three of them share.
 */
module Parser {
  import opened Wrappers
  import opened Text

  /** A typed literal. The float branch of the source is kept as its text. */
  datatype Value = IntVal(n: nat) | StrVal(s: string) | BoolVal(b: bool) | FloatLit(text: string)

  // ---------------------------------------------------------------------------
  // The literal-typing rule
  // ---------------------------------------------------------------------------

  /** Python's `s.startswith(q) and s.endswith(q)`, which also holds of the
      one-character string `q`. */
  predicate QuotedBy(s: string, q: char) {
    |s| >= 1 && s[0] == q && s[|s| - 1] == q
  }

  predicate Quoted(s: string) {
    QuotedBy(s, '"') || QuotedBy(s, '\'')
  }

  /** `s[1:-1]` when `s` starts and ends with the same kind of quote. */
  function StripQuotes(s: string): (r: string)
    ensures !Quoted(s) ==> r == s
    ensures Quoted(s) && |s| >= 2 ==> s == [s[0]] + r + [s[0]]
    ensures Quoted(s) && |s| < 2 ==> r == []
  {
    if Quoted(s) then (if |s| >= 2 then s[1..|s| - 1] else []) else s
  }

  /** Python's `s.replace('.', '', 1).isdigit() and s.count('.') == 1`. */
  predicate IsFloatText(s: string)
    ensures IsFloatText(s) ==> '.' in s && !AllDigits(s)
  {
    var i := IndexOf(s, '.');
    i < |s| && '.' !in s[i + 1..] && AllDigits(s[..i] + s[i + 1..])
  }

  /** The float test in the source's terms: text with one `.` is a decimal
      fraction exactly when no other `.` occurs and the digits around it,
      taken together, are a non-empty digit string. */
  lemma FloatTextOf(a: string, b: string)
    ensures IsFloatText(a + "." + b) <==> '.' !in a && '.' !in b && AllDigits(a + b)
  {
    var s := a + "." + b;
    var i := IndexOf(s, '.');
    IndexOfFirst(s, '.');
    if '.' in a {
      var j :| 0 <= j < |a| && a[j] == '.';
      assert s[j] == '.';
      assert s[i + 1..][|a| - i - 1] == '.';
    } else {
      IndexOfAfter(a, '.', b);
      assert s[..i] == a && s[i + 1..] == b;
    }
  }

  /** Booleans in any letter case, then digit strings as integers, then
      decimal fractions, and everything else as text. */
  function Classify(text: string): (v: Value)
    ensures v.BoolVal? <==> Lower(text) == "true" || Lower(text) == "false"
    ensures v.IntVal? <==> AllDigits(text)
    ensures v.IntVal? ==> v.n == DigitsValue(text)
    ensures v.FloatLit? ==> v.text == text && IsFloatText(text)
    ensures v.StrVal? ==> v.s == text
  {
    DigitsAreNotBooleans(text);
    if Lower(text) == "true" then BoolVal(true)
    else if Lower(text) == "false" then BoolVal(false)
    else if AllDigits(text) then IntVal(DigitsValue(text))
    else if IsFloatText(text) then FloatLit(text)
    else StrVal(text)
  }

  /** The value of the right-hand side of `column = value` in a WHERE or SET
      clause: one pair of quotes comes off first, then the text is typed. */
  function ClauseValue(text: string): (v: Value)
    ensures !Quoted(text) ==> v == Classify(text)
    ensures Quoted(text) && |text| >= 2 ==> v == Classify(text[1..|text| - 1])
    ensures Quoted(text) && |text| < 2 ==> v == StrVal([])
  {
    Classify(StripQuotes(text))
  }

  /** The value of one `parse_values` token: the token is typed first, and
      only a token that stays text loses a pair of quotes. */
  function TokenValue(token: string): (v: Value)
    ensures !Quoted(token) ==> v == Classify(token)
    ensures Quoted(token) ==> v == StrVal(StripQuotes(token))
  {
    QuotedIsText(token);
    match Classify(token)
    case StrVal(_) => StrVal(StripQuotes(token))
    case v => v
  }

  /** The text a value is written as, for the values the rule reads back. */
  function Render(v: Value): string
  {
    match v
    case IntVal(n) => ShowNat(n)
    case BoolVal(b) => if b then "true" else "false"
    case StrVal(s) => s
    case FloatLit(t) => t
  }

  /** Text that the typing rule leaves as text. */
  predicate PlainText(s: string) {
    Lower(s) != "true" && Lower(s) != "false" && !AllDigits(s) && !IsFloatText(s)
  }

  /** The values whose rendering the typing rule reads back unchanged. */
  predicate Readable(v: Value) {
    match v
    case StrVal(s) => PlainText(s)
    case FloatLit(t) => IsFloatText(t)
    case _ => true
  }

  lemma DigitsAreNotBooleans(s: string)
    ensures AllDigits(s) ==> Lower(s) != "true" && Lower(s) != "false"
  {
    if AllDigits(s) {
      assert Lower(s)[0] == LowerChar(s[0]);
    }
  }

  /** A text that starts with a quote is neither a Boolean, nor digits, nor
      a decimal fraction, so typing leaves it text. */
  lemma QuotedIsText(s: string)
    ensures Quoted(s) ==> Classify(s) == StrVal(s)
  {
    if Quoted(s) {
      assert Lower(s)[0] == s[0];
      assert !IsDigit(s[0]);
      var i := IndexOf(s, '.');
      if i < |s| {
        assert i > 0;
        assert (s[..i] + s[i + 1..])[0] == s[0];
      }
    }
  }

  /** Typing the rendering of a readable value gives the value back. */
  lemma ClassifyRender(v: Value)
    requires Readable(v)
    ensures Classify(Render(v)) == v
  {
    match v
    case IntVal(n) =>
      DigitsAreNotBooleans(ShowNat(n));
      DigitsValueShowNat(n);
    case BoolVal(b) =>
      assert Lower("true") == "true";
      assert Lower("false") == "false";
    case StrVal(_) =>
    case FloatLit(t) =>
      assert Lower(t) != "true" && Lower(t) != "false" by {
        var i := IndexOf(t, '.');
        assert Lower(t)[i] == '.';
      }
  }

  /** Leading zeros do not change the integer a digit string is typed as:
      `007` is 7. */
  lemma ClassifyLeadingZero(s: string)
    requires AllDigits(s)
    ensures Classify("0" + s) == Classify(s)
  {
    DigitsValueLeadingZero(s);
    assert AllDigits("0" + s);
  }

  /** The letter case of a Boolean does not matter. */
  lemma ClassifyBooleanCase(s: string)
    requires Lower(s) == "true" || Lower(s) == "false"
    ensures Classify(s) == BoolVal(Lower(s) == "true")
  {
  }

  /** A quoted number in a clause is still a number: `"28"` gives 28. */
  lemma {:induction false} QuotedDigitsInClause(n: nat, q: char)
    requires q == '"' || q == '\''
    ensures ClauseValue([q] + ShowNat(n) + [q]) == IntVal(n)
  {
    var s := [q] + ShowNat(n) + [q];
    assert s[1..|s| - 1] == ShowNat(n);
    ClassifyRender(IntVal(n));
  }

  /** A values token that still carries quotes after tokenizing, such as the
      `"28"` left by nested quotes, stays text: the token is typed before its
      quotes come off. */
  lemma {:induction false} QuotedDigitsAsToken(n: nat, q: char)
    requires q == '"' || q == '\''
    ensures TokenValue([q] + ShowNat(n) + [q]) == StrVal(ShowNat(n))
  {
    var s := [q] + ShowNat(n) + [q];
    assert s[1..|s| - 1] == ShowNat(n);
  }

  /** A lone quote character counts as quoted and becomes the empty text. */
  lemma LoneQuoteIsEmpty(q: char)
    requires q == '"' || q == '\''
    ensures ClauseValue([q]) == StrVal([])
  {
  }

  // ---------------------------------------------------------------------------
  // column = value
  // ---------------------------------------------------------------------------

  /** Text split at its first `=`, both sides stripped; `None` without `=`. */
  function SplitAtEquals(s: string): (r: Option<(string, string)>)
    ensures r.None? <==> '=' !in s
    ensures r.Some? ==> Trimmed(r.value.0) && '=' !in r.value.0
  {
    var i := IndexOf(s, '=');
    IndexOfFirst(s, '=');
    if i == |s| then None
    else
      StripKeeps(s[..i], '=');
      Some((Strip(s[..i]), Strip(s[i + 1..])))
  }

  /** One `column = value` assignment, as both clause parsers read it: the
      text is stripped and split at its first `=`, and both sides are
      stripped. No `=` means no assignment. */
  function SplitAssignment(text: string): (r: Option<(string, string)>)
    ensures r.None? <==> '=' !in text
    ensures r.Some? ==> Trimmed(r.value.0) && '=' !in r.value.0
  {
    StripKeeps(text, '=');
    SplitAtEquals(Strip(text))
  }

  lemma Regroup(a: string, b: string, c: string, d: string, e: string)
    ensures (a + b) + c + (d + e) == a + (b + c + d) + e
  {
  }

  /** The fragments of a SET clause are stripped before they are split at
      `=`; splitting strips again, which changes nothing. */
  lemma StrippedFragment(fragment: string)
    ensures SplitAssignment(Strip(fragment)) == SplitAssignment(fragment)
  {
    StripIdempotent(fragment);
  }

  /** `column = value` with an `=`-free column: the column and the value are
      the stripped sides, and later `=` signs stay in the value. */
  lemma AssignmentOf(k: string, v: string)
    requires '=' !in k
    ensures SplitAssignment(k + "=" + v) == Some((Strip(k), Strip(v)))
  {
    var front, left := SplitLeading(k);
    var right, back := SplitTrailing(v);
    Regroup(front, left, "=", right, back);
    assert '=' !in left by {
      assert forall c :: c in left ==> c in k;
    }
    StripAroundEquals(front, left, right, back);
    SplitAtEqualsOf(left, right);
  }

  lemma StripAroundEquals(front: string, left: string, right: string, back: string)
    requires AllSpace(front) && AllSpace(back)
    requires left == [] || !IsSpace(left[0])
    requires right == [] || !IsSpace(right[|right| - 1])
    ensures Strip(front + (left + "=" + right) + back) == left + "=" + right
  {
    assert Trimmed(left + "=" + right);
    StripExact(front, left + "=" + right, back);
  }

  lemma SplitAtEqualsOf(left: string, right: string)
    requires '=' !in left
    ensures SplitAtEquals(left + "=" + right) == Some((Strip(left), Strip(right)))
  {
    var middle := left + "=" + right;
    IndexOfAfter(left, '=', right);
    assert middle[..|left|] == left;
    assert middle[|left| + 1..] == right;
  }

  // ---------------------------------------------------------------------------
  // parse_where_clause
  // ---------------------------------------------------------------------------

  /** `parse_where_clause`: `None` for empty text and for text without `=`;
      otherwise a map with the one assignment the text makes. */
  function ParseWhereClause(whereStr: string): (r: Option<map<string, Value>>)
    ensures r.None? <==> '=' !in whereStr
    ensures r.Some? ==> |r.value| == 1
  {
    if whereStr == [] then None
    else
      match SplitAssignment(whereStr)
      case None => None
      case Some((column, text)) => Some(map[column := ClauseValue(text)])
  }

  /** The WHERE condition `k = v` filters column `Strip(k)` on the typed
      `Strip(v)`, whatever `v` holds after the first `=`. */
  lemma WhereOf(k: string, v: string)
    requires '=' !in k
    ensures ParseWhereClause(k + "=" + v) == Some(map[Strip(k) := ClauseValue(Strip(v))])
  {
    AssignmentOf(k, v);
  }

  // ---------------------------------------------------------------------------
  // parse_set_clause
  // ---------------------------------------------------------------------------

  /** The column values a sequence of assignment fragments sets: fragments
      without `=` are skipped, and a later assignment to a column replaces an
      earlier one. */
  function Assignments(fragments: seq<string>): (r: map<string, Value>)
  {
    if fragments == [] then map[]
    else Assign(Assignments(fragments[..|fragments| - 1]), fragments[|fragments| - 1])
  }

  /** The column values after one more fragment. */
  function Assign(earlier: map<string, Value>, fragment: string): (r: map<string, Value>)
    ensures earlier.Keys <= r.Keys
  {
    match SplitAssignment(fragment)
    case None => earlier
    case Some((column, text)) => earlier[column := ClauseValue(text)]
  }

  predicate AssignsTo(fragment: string, column: string) {
    SplitAssignment(fragment).Some? && SplitAssignment(fragment).value.0 == column
  }

  /** The last fragment assigning a column decides its value. */
  lemma {:induction false} LastAssignmentWins(fragments: seq<string>, j: nat, column: string)
    requires j < |fragments| && AssignsTo(fragments[j], column)
    requires forall l :: j < l < |fragments| ==> !AssignsTo(fragments[l], column)
    ensures column in Assignments(fragments)
    ensures Assignments(fragments)[column] == ClauseValue(SplitAssignment(fragments[j]).value.1)
  {
    var n := |fragments|;
    var init := fragments[..n - 1];
    if j < n - 1 {
      assert init[j] == fragments[j];
      forall l | j < l < |init|
        ensures !AssignsTo(init[l], column)
      {
        assert init[l] == fragments[l];
      }
      LastAssignmentWins(init, j, column);
      AssignElsewhere(Assignments(init), fragments[n - 1], column);
    } else {
      AssignHere(Assignments(init), fragments[j], column);
    }
  }

  /** One fragment sets at most one column. */
  lemma AssignAddsAtMostOne(earlier: map<string, Value>, fragment: string)
    ensures |Assign(earlier, fragment)| <= |earlier| + 1
  {
  }

  /** Each fragment sets at most one column, so there are no more columns
      than fragments. */
  lemma {:induction false} AssignmentsBound(fragments: seq<string>)
    ensures |Assignments(fragments)| <= |fragments|
  {
    if fragments != [] {
      var init := fragments[..|fragments| - 1];
      AssignmentsBound(init);
      AssignAddsAtMostOne(Assignments(init), fragments[|fragments| - 1]);
    }
  }

  /** A fragment that assigns a column sets it to the fragment's value. */
  lemma AssignHere(earlier: map<string, Value>, fragment: string, column: string)
    requires AssignsTo(fragment, column)
    ensures column in Assign(earlier, fragment)
    ensures Assign(earlier, fragment)[column] == ClauseValue(SplitAssignment(fragment).value.1)
  {
  }

  /** A fragment that does not assign a column leaves it as it was. */
  lemma AssignElsewhere(earlier: map<string, Value>, fragment: string, column: string)
    requires !AssignsTo(fragment, column)
    ensures column in Assign(earlier, fragment) <==> column in earlier
    ensures column in earlier ==> Assign(earlier, fragment)[column] == earlier[column]
  {
  }

  /** A column no fragment assigns is not set. */
  lemma {:induction false} UnassignedColumnAbsent(fragments: seq<string>, column: string)
    requires forall l :: 0 <= l < |fragments| ==> !AssignsTo(fragments[l], column)
    ensures column !in Assignments(fragments)
  {
    if fragments != [] {
      var init := fragments[..|fragments| - 1];
      forall l | 0 <= l < |init|
        ensures !AssignsTo(init[l], column)
      {
        assert init[l] == fragments[l];
      }
      UnassignedColumnAbsent(init, column);
      AssignElsewhere(Assignments(init), fragments[|fragments| - 1], column);
    }
  }

  lemma AssignmentsStep(fragments: seq<string>, k: nat)
    requires k < |fragments|
    ensures Assignments(fragments[..k + 1]) == Assign(Assignments(fragments[..k]), fragments[k])
  {
    assert fragments[..k + 1][..k] == fragments[..k];
  }

  /** `parse_set_clause`: every comma separates two fragments, quoted or not,
      and the result is what the fragments assign. */
  method ParseSetClause(setStr: string) returns (result: map<string, Value>)
    ensures result == Assignments(Split(setStr, ','))
  {
    if setStr == [] {
      assert Split(setStr, ',') == [[]];
      return map[];
    }
    result := map[];
    var parts := Split(setStr, ',');
    var assignments := seq(|parts|, i requires 0 <= i < |parts| => Strip(parts[i]));
    for k := 0 to |assignments|
      invariant result == Assignments(parts[..k])
    {
      AssignmentsStep(parts, k);
      match SplitAtEquals(assignments[k])
      case None =>
      case Some((column, text)) =>
        result := result[column := ClauseValue(text)];
    }
    assert parts[..|parts|] == parts;
  }

  // ---------------------------------------------------------------------------
  // parse_values
  // ---------------------------------------------------------------------------

  /** `s[1:-1]` when `s` starts with `(` and ends with `)`. */
  function Unparenthesize(s: string): (r: string)
    ensures (|s| >= 1 && s[0] == '(' && s[|s| - 1] == ')') ==> s == "(" + r + ")"
    ensures !(|s| >= 1 && s[0] == '(' && s[|s| - 1] == ')') ==> r == s
  {
    if |s| >= 1 && s[0] == '(' && s[|s| - 1] == ')' then s[1..|s| - 1] else s
  }

  /** The tokens `parse_values` types, with Python's `shlex.split` replaced by
      a split at white space: empty text has none; otherwise the text is
      stripped, one pair of parentheses comes off, commas become spaces. */
  function ValueTokens(valuesStr: string): (tokens: seq<string>)
    ensures valuesStr == [] ==> tokens == []
    ensures forall i :: 0 <= i < |tokens| ==> IsWord(tokens[i]) && ',' !in tokens[i]
  {
    if valuesStr == [] then []
    else
      var text := Replace(Unparenthesize(Strip(valuesStr)), ',', ' ');
      WordsAreWords(text);
      WordsOmit(text, ',');
      Words(text)
  }

  /** A parenthesised, comma-separated list of tokens is read back as exactly
      those tokens, in order; only the outer parentheses come off. The empty
      list `()` has no tokens. */
  lemma ValueTokensOfList(tokens: seq<string>)
    requires forall i :: 0 <= i < |tokens| ==> IsWord(tokens[i]) && ',' !in tokens[i]
    ensures ValueTokens("(" + Join(tokens, ',') + ")") == tokens
  {
    var inner := Join(tokens, ',');
    OuterParentheses(inner);
    ReplaceJoin(tokens, ',', ' ');
    WordsJoin(tokens);
  }

  /** A parenthesised list whose items are words, each after white space of
      its own, as in `(Sergei, 28, true)`, is read back as exactly those
      words, in order. */
  lemma ValueTokensOfPaddedList(items: seq<string>, pads: seq<string>, tokens: seq<string>)
    requires |items| == |pads| == |tokens|
    requires forall i :: 0 <= i < |tokens| ==>
               items[i] == pads[i] + tokens[i] && AllSpace(pads[i])
               && IsWord(tokens[i]) && ',' !in tokens[i]
    ensures ValueTokens("(" + Join(items, ',') + ")") == tokens
  {
    OuterParentheses(Join(items, ','));
    WordsReplaceJoinPadded(items, pads, tokens);
  }

  /** Parenthesised text is already stripped, and loses just its parentheses. */
  lemma OuterParentheses(inner: string)
    ensures Unparenthesize(Strip("(" + inner + ")")) == inner
  {
    var s := "(" + inner + ")";
    StripExact([], s, []);
    assert [] + s + [] == s;
  }

  /** `parse_values`: one value per token, in token order, each typed by the
      token rule. */
  method ParseValues(valuesStr: string) returns (values: seq<Value>)
    ensures |values| == |ValueTokens(valuesStr)|
    ensures forall i :: 0 <= i < |values| ==> values[i] == TokenValue(ValueTokens(valuesStr)[i])
  {
    var parts := ValueTokens(valuesStr);
    values := TypeTokens(parts, TokenValue);
  }

  /** The loop of `parse_values`: each token in turn is typed by `typed` and
      appended. */
  method TypeTokens(parts: seq<string>, typed: string -> Value) returns (values: seq<Value>)
    ensures |values| == |parts|
    ensures forall i :: 0 <= i < |values| ==> values[i] == typed(parts[i])
  {
    values := [];
    for k := 0 to |parts|
      invariant |values| == k
      invariant forall i :: 0 <= i < k ==> values[i] == typed(parts[i])
    {
      values := values + [typed(parts[k])];
    }
  }
}
