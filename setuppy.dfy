/**
 * Reading dependencies out of a package's setup.py without running it, as
 * _s_retrieve_package_data.py does. The file is given as the token list
 * Python's tokenizer would produce; the scanners walk that list looking for
 * `requires = [ 'a', 'b' ]` (or `install_requires = (...)`, or a variable
 * holding such a list) and collect the string literals inside the brackets.
 */
module SetupPy {
  import opened PyStr
  import opened Errors

  /** The token codes the scanners distinguish; every other code is `Other`. */
  datatype TokenKind =
    | Name       // tokenize.NAME
    | Str        // tokenize.STRING
    | Nl         // tokenize.NL, a line break inside brackets
    | Comment    // tokenize.COMMENT
    | Op         // tokenize.OP
    | Other      // NEWLINE, NUMBER, INDENT and the rest

  /** One token: its code, its text, and the full source line it is on. */
  datatype Token = Token(kind: TokenKind, value: string, line: string)

  // ---------------------------------------------------------------------
  // strip_outside_quotes

  predicate IsQuote(c: char) {
    c == '\'' || c == '"'
  }

  /**
   * `strip_outside_quotes`: the first character must be a quote and the
   * last the same character; both are dropped. An empty string fails at
   * `s[0]`.
   */
  function StripOutsideQuotes(s: string): Result<string> {
    if |s| == 0 then Err(IndexError)
    else if !IsQuote(s[0]) then Err(AssertionFailed)
    else if Slice(s, -1, |s|) != [s[0]] then Err(AssertionFailed)
    else Ok(Slice(s, 1, -1))
  }

  /**
   * The stripping succeeds exactly on a string that starts with a quote
   * and ends with the same character, and then the string is that quote,
   * the result and the quote again (a lone quote character gives '').
   */
  lemma StripOutsideQuotesMeaning(s: string)
    ensures StripOutsideQuotes(s).Ok? <==> |s| >= 1 && IsQuote(s[0]) && s[|s| - 1] == s[0]
    ensures StripOutsideQuotes(s) == Err(IndexError) <==> s == []
    ensures StripOutsideQuotes(s).Ok? && |s| >= 2 ==> s == [s[0]] + StripOutsideQuotes(s).value + [s[0]]
    ensures StripOutsideQuotes(s).Ok? && |s| == 1 ==> StripOutsideQuotes(s).value == []
  {
    if |s| >= 1 {
      assert Slice(s, -1, |s|) == s[|s| - 1..];
    }
  }

  /** Quoting a body and stripping it again gives the body back. */
  lemma StripQuoted(q: char, body: string)
    requires IsQuote(q)
    ensures StripOutsideQuotes([q] + body + [q]) == Ok(body)
  {
    var s := [q] + body + [q];
    assert Slice(s, -1, |s|) == [q];
    assert s[1..|s| - 1] == body;
  }

  // ---------------------------------------------------------------------
  // The bracket scanner shared by find_dependencies_in_setuppy_fileobj and
  // find_list_of_string_literals_with_name

  /** What the scanner's `if`/`elif` chain does with one token, in the order of its tests. */
  datatype Action = Skip | OpenBracket | OpenParen | CloseBracket | CloseParen | Literal | Unknown

  function Classify(t: Token): Action {
    if t.value == "," || t.kind == Nl || t.kind == Comment then Skip
    else if t.value == "[" then OpenBracket
    else if t.value == "(" then OpenParen
    else if t.value == "]" then CloseBracket
    else if t.value == ")" then CloseParen
    else if t.kind == Str then Literal
    else Unknown
  }

  /**
   * The scanner after it has looked at toks[j], with `nb` brackets and
   * `np` parentheses open: the stripped string literals up to the token
   * that closes the list. It asserts that neither counter is negative
   * while the list is open, fails past the last token, and raises on a
   * token it does not recognise.
   */
  function Scan(toks: seq<Token>, j: nat, nb: int, np: int): Result<seq<string>>
    decreases |toks| - j
  {
    if nb <= 0 && np <= 0 then Ok([])
    else if nb < 0 || np < 0 then Err(AssertionFailed)
    else if j + 1 >= |toks| then Err(IndexError)
    else
      var t := toks[j + 1];
      match Classify(t)
      case Skip => Scan(toks, j + 1, nb, np)
      case OpenBracket => Scan(toks, j + 1, nb + 1, np)
      case OpenParen => Scan(toks, j + 1, nb, np + 1)
      case CloseBracket => Scan(toks, j + 1, nb - 1, np)
      case CloseParen => Scan(toks, j + 1, nb, np - 1)
      case Literal =>
        (match StripOutsideQuotes(t.value)
         case Err(e) => Err(e)
         case Ok(s) => Prepend([s], Scan(toks, j + 1, nb, np)))
      case Unknown => Err(BareException)
  }

  /** The scanner's loop: `while n_open_brackets > 0 or n_open_paren > 0`. */
  method ScanList(toks: seq<Token>, start: nat, nb0: int, np0: int) returns (r: Result<seq<string>>)
    requires start < |toks|
    ensures r == Scan(toks, start, nb0, np0)
  {
    var values: seq<string> := [];
    var j := start;
    var nb := nb0;
    var np := np0;
    PrependNothing(Scan(toks, start, nb0, np0));
    while nb > 0 || np > 0
      invariant start <= j < |toks|
      invariant Scan(toks, start, nb0, np0) == Prepend(values, Scan(toks, j, nb, np))
      decreases |toks| - j
    {
      if nb < 0 || np < 0 {
        return Err(AssertionFailed);
      }
      if j + 1 >= |toks| {
        return Err(IndexError);
      }
      j := j + 1;
      var t := toks[j];
      if t.value == "," || t.kind == Nl || t.kind == Comment {
      } else if t.value == "[" {
        nb := nb + 1;
      } else if t.value == "(" {
        np := np + 1;
      } else if t.value == "]" {
        nb := nb - 1;
      } else if t.value == ")" {
        np := np - 1;
      } else if t.kind == Str {
        var stripped := StripOutsideQuotes(t.value);
        if stripped.Err? {
          return Err(stripped.error);
        }
        PrependTwice(values, [stripped.value], Scan(toks, j, nb, np));
        values := values + [stripped.value];
      } else {
        return Err(BareException);
      }
    }
    assert values + [] == values;
    r := Ok(values);
  }

  // The meaning of a scan, stated over the tokens of the list body.

  function Delta(a: Action, open: Action, close: Action): int {
    if a == open then 1 else if a == close then -1 else 0
  }

  /** Openers minus closers of one kind among ts. */
  function Net(ts: seq<Token>, open: Action, close: Action): int {
    if ts == [] then 0 else Delta(Classify(ts[0]), open, close) + Net(ts[1..], open, close)
  }

  /** A list is still open: neither counter is negative and one is positive. */
  predicate StillOpen(nb: int, np: int) {
    nb >= 0 && np >= 0 && (nb > 0 || np > 0)
  }

  /**
   * ts is the rest of a list opened with counters nb and np: every token
   * is one the scanner knows, the list stays open before each token, and
   * the last token closes it.
   */
  predicate ListBody(ts: seq<Token>, nb: int, np: int) {
    && (forall k :: 0 <= k < |ts| ==> Classify(ts[k]) != Unknown)
    && (forall k :: 0 <= k < |ts| ==>
          StillOpen(nb + Net(ts[..k], OpenBracket, CloseBracket), np + Net(ts[..k], OpenParen, CloseParen)))
    && nb + Net(ts, OpenBracket, CloseBracket) == 0
    && np + Net(ts, OpenParen, CloseParen) == 0
  }

  /** What one token contributes: a string literal without its outer quotes. */
  function LiteralOf(t: Token): seq<string> {
    if Classify(t) == Literal then [Slice(t.value, 1, -1)] else []
  }

  /** The string literals among ts, in order, without their outer quotes. */
  function Literals(ts: seq<Token>): seq<string> {
    if ts == [] then [] else LiteralOf(ts[0]) + Literals(ts[1..])
  }

  /** Every string literal among ts is properly quoted. */
  predicate WellQuoted(ts: seq<Token>) {
    forall k :: 0 <= k < |ts| && Classify(ts[k]) == Literal ==> StripOutsideQuotes(ts[k].value).Ok?
  }

  /** The tokens after toks[j] up to toks[e] are a list body. */
  predicate ClosesAt(toks: seq<Token>, j: nat, e: nat, nb: int, np: int) {
    j < e < |toks| && ListBody(toks[j + 1..e + 1], nb, np)
  }

  /** A list body one token longer, at the front. */
  lemma ListBodyCons(t: Token, ts: seq<Token>, nb: int, np: int)
    requires StillOpen(nb, np) && Classify(t) != Unknown
    requires ListBody(ts, nb + Delta(Classify(t), OpenBracket, CloseBracket), np + Delta(Classify(t), OpenParen, CloseParen))
    ensures ListBody([t] + ts, nb, np)
    ensures Literals([t] + ts) == LiteralOf(t) + Literals(ts)
  {
    var u := [t] + ts;
    assert u[1..] == ts;
    forall k | 1 <= k < |u|
      ensures StillOpen(nb + Net(u[..k], OpenBracket, CloseBracket), np + Net(u[..k], OpenParen, CloseParen))
    {
      assert u[..k][1..] == ts[..k - 1];
    }
    assert u[..0] == [];
    forall k | 0 <= k < |u| ensures Classify(u[k]) != Unknown {
      if k > 0 { assert u[k] == ts[k - 1]; }
    }
  }

  /** A one-token list body: the token closes the list. */
  lemma ListBodySingle(t: Token, nb: int, np: int)
    requires StillOpen(nb, np) && Classify(t) != Unknown
    requires nb + Delta(Classify(t), OpenBracket, CloseBracket) == 0
    requires np + Delta(Classify(t), OpenParen, CloseParen) == 0
    ensures ListBody([t], nb, np)
    ensures Literals([t]) == LiteralOf(t)
  {
    assert [t][..0] == [];
    assert [t][1..] == [];
  }

  /** A scan of an open list that succeeds has read a known token after toks[j]. */
  lemma ScanOkStep(toks: seq<Token>, j: nat, nb: int, np: int)
    requires StillOpen(nb, np) && Scan(toks, j, nb, np).Ok?
    ensures j + 1 < |toks| && Classify(toks[j + 1]) != Unknown
    ensures Classify(toks[j + 1]) == Literal ==> StripOutsideQuotes(toks[j + 1].value).Ok?
  {
  }

  /** One step of a scan of an open list over a known, well-quoted token. */
  lemma ScanStep(toks: seq<Token>, j: nat, nb: int, np: int)
    requires StillOpen(nb, np) && j + 1 < |toks|
    requires Classify(toks[j + 1]) != Unknown
    requires Classify(toks[j + 1]) == Literal ==> StripOutsideQuotes(toks[j + 1].value).Ok?
    ensures Scan(toks, j, nb, np) == Prepend(LiteralOf(toks[j + 1]),
      Scan(toks, j + 1, nb + Delta(Classify(toks[j + 1]), OpenBracket, CloseBracket),
                        np + Delta(Classify(toks[j + 1]), OpenParen, CloseParen)))
  {
    var t := toks[j + 1];
    var rest := Scan(toks, j + 1, nb + Delta(Classify(t), OpenBracket, CloseBracket),
                                  np + Delta(Classify(t), OpenParen, CloseParen));
    if Classify(t) == Literal {
      StripOutsideQuotesMeaning(t.value);
    } else {
      PrependNothing(rest);
    }
  }

  /**
   * A scan of a list that is open succeeds only on a list body: it then
   * returns the stripped literals of the tokens up to the one that closes
   * the list.
   */
  lemma {:induction false} ScanSound(toks: seq<Token>, j: nat, nb: int, np: int)
    requires StillOpen(nb, np) && Scan(toks, j, nb, np).Ok?
    ensures exists e :: ClosesAt(toks, j, e, nb, np) && Scan(toks, j, nb, np).value == Literals(toks[j + 1..e + 1])
    decreases |toks| - j
  {
    ScanOkStep(toks, j, nb, np);
    ScanStep(toks, j, nb, np);
    var t := toks[j + 1];
    var a := Classify(t);
    var nb' := nb + Delta(a, OpenBracket, CloseBracket);
    var np' := np + Delta(a, OpenParen, CloseParen);
    var rest := Scan(toks, j + 1, nb', np');
    if nb' <= 0 && np' <= 0 {
      ClosesAtNext(toks, j, nb, np);
    } else {
      assert rest.Ok?;
      ScanOkOpen(toks, j + 1, nb', np');
      ScanSound(toks, j + 1, nb', np');
      var e :| ClosesAt(toks, j + 1, e, nb', np') && rest.value == Literals(toks[j + 2..e + 1]);
      ClosesAtLater(toks, j, e, nb, np);
    }
  }

  /** A scan that succeeds with a counter positive has neither counter negative. */
  lemma ScanOkOpen(toks: seq<Token>, j: nat, nb: int, np: int)
    requires Scan(toks, j, nb, np).Ok? && (nb > 0 || np > 0)
    ensures StillOpen(nb, np)
  {
  }

  /** A known token that closes an open list is a list body of its own. */
  lemma ClosesAtNext(toks: seq<Token>, j: nat, nb: int, np: int)
    requires StillOpen(nb, np) && j + 1 < |toks| && Classify(toks[j + 1]) != Unknown
    requires nb + Delta(Classify(toks[j + 1]), OpenBracket, CloseBracket) <= 0
    requires np + Delta(Classify(toks[j + 1]), OpenParen, CloseParen) <= 0
    ensures ClosesAt(toks, j, j + 1, nb, np) && Literals(toks[j + 1..j + 2]) == LiteralOf(toks[j + 1])
  {
    ListBodySingle(toks[j + 1], nb, np);
    assert toks[j + 1..j + 2] == [toks[j + 1]];
  }

  /** A known token that leaves the list open, followed by the rest of the list body. */
  lemma ClosesAtLater(toks: seq<Token>, j: nat, e: nat, nb: int, np: int)
    requires StillOpen(nb, np) && j + 1 < |toks| && Classify(toks[j + 1]) != Unknown
    requires ClosesAt(toks, j + 1, e, nb + Delta(Classify(toks[j + 1]), OpenBracket, CloseBracket),
                                     np + Delta(Classify(toks[j + 1]), OpenParen, CloseParen))
    ensures ClosesAt(toks, j, e, nb, np)
    ensures Literals(toks[j + 1..e + 1]) == LiteralOf(toks[j + 1]) + Literals(toks[j + 2..e + 1])
  {
    ListBodyCons(toks[j + 1], toks[j + 2..e + 1], nb, np);
    assert toks[j + 1..e + 1] == [toks[j + 1]] + toks[j + 2..e + 1];
  }

  /** The tail of a list body that the first token does not close is a list body. */
  lemma ListBodyTail(ts: seq<Token>, nb: int, np: int)
    requires ListBody(ts, nb, np) && |ts| > 1
    ensures ListBody(ts[1..], nb + Delta(Classify(ts[0]), OpenBracket, CloseBracket),
                              np + Delta(Classify(ts[0]), OpenParen, CloseParen))
  {
    var t := ts[0];
    var ts' := ts[1..];
    var nb' := nb + Delta(Classify(t), OpenBracket, CloseBracket);
    var np' := np + Delta(Classify(t), OpenParen, CloseParen);
    forall k | 0 <= k < |ts'|
      ensures StillOpen(nb' + Net(ts'[..k], OpenBracket, CloseBracket), np' + Net(ts'[..k], OpenParen, CloseParen))
    {
      assert ts[..k + 1][1..] == ts'[..k];
      assert ts[..k + 1][0] == t;
    }
    forall k | 0 <= k < |ts'| ensures Classify(ts'[k]) != Unknown {
      assert ts'[k] == ts[k + 1];
    }
  }

  /** The first token of a well-quoted list body: known, quoted, and read while the list is open. */
  lemma ClosesAtHead(toks: seq<Token>, j: nat, e: nat, nb: int, np: int)
    requires ClosesAt(toks, j, e, nb, np) && WellQuoted(toks[j + 1..e + 1])
    ensures StillOpen(nb, np) && Classify(toks[j + 1]) != Unknown
    ensures Classify(toks[j + 1]) == Literal ==> StripOutsideQuotes(toks[j + 1].value).Ok?
    ensures Literals(toks[j + 1..e + 1]) == LiteralOf(toks[j + 1]) + Literals(toks[j + 2..e + 1])
    ensures e == j + 1 ==>
      nb + Delta(Classify(toks[j + 1]), OpenBracket, CloseBracket) == 0
      && np + Delta(Classify(toks[j + 1]), OpenParen, CloseParen) == 0
  {
    var ts := toks[j + 1..e + 1];
    assert ts[0] == toks[j + 1] && ts[..0] == [];
    assert ts[1..] == toks[j + 2..e + 1];
    if e == j + 1 {
      assert ts[1..] == [];
    }
  }

  /** The rest of a well-quoted list body after a token that leaves the list open. */
  lemma ClosesAtRest(toks: seq<Token>, j: nat, e: nat, nb: int, np: int)
    requires ClosesAt(toks, j, e, nb, np) && WellQuoted(toks[j + 1..e + 1]) && e > j + 1
    ensures ClosesAt(toks, j + 1, e, nb + Delta(Classify(toks[j + 1]), OpenBracket, CloseBracket),
                                     np + Delta(Classify(toks[j + 1]), OpenParen, CloseParen))
    ensures WellQuoted(toks[j + 2..e + 1])
  {
    var ts := toks[j + 1..e + 1];
    var ts' := toks[j + 2..e + 1];
    assert ts[1..] == ts';
    ListBodyTail(ts, nb, np);
    forall k | 0 <= k < |ts'| && Classify(ts'[k]) == Literal ensures StripOutsideQuotes(ts'[k].value).Ok? {
      assert ts'[k] == ts[k + 1];
    }
  }

  /** Conversely, a well-quoted list body is scanned to its stripped literals. */
  lemma {:induction false} ScanComplete(toks: seq<Token>, j: nat, e: nat, nb: int, np: int)
    requires ClosesAt(toks, j, e, nb, np) && WellQuoted(toks[j + 1..e + 1])
    ensures Scan(toks, j, nb, np) == Ok(Literals(toks[j + 1..e + 1]))
    decreases e - j
  {
    ClosesAtHead(toks, j, e, nb, np);
    ScanStep(toks, j, nb, np);
    var t := toks[j + 1];
    var nb' := nb + Delta(Classify(t), OpenBracket, CloseBracket);
    var np' := np + Delta(Classify(t), OpenParen, CloseParen);
    if e == j + 1 {
      assert Scan(toks, j + 1, nb', np') == Ok([]);
      assert toks[j + 2..e + 1] == [];
    } else {
      ClosesAtRest(toks, j, e, nb, np);
      ScanComplete(toks, j + 1, e, nb', np');
    }
  }

  // ---------------------------------------------------------------------
  // find_list_of_string_literals_with_name

  /** toks[i] is a requested NAME followed by '=' and an opening bracket or parenthesis. */
  predicate AssignmentAt(toks: seq<Token>, names: seq<string>, i: nat) {
    i + 2 < |toks| && toks[i].value in names && toks[i].kind == Name
    && toks[i + 1].value == "=" && (toks[i + 2].value == "[" || toks[i + 2].value == "(")
  }

  /**
   * The search loop from index i on, with Python's short-circuit `or`:
   * toks[i+1] and toks[i+2] are read only while the tests before them
   * hold, and reading past the end raises.
   */
  function FirstAssignment(toks: seq<Token>, names: seq<string>, i: nat): Result<Option<nat>>
    decreases |toks| - i
  {
    if i >= |toks| then Ok(None)
    else if toks[i].value !in names || toks[i].kind != Name then FirstAssignment(toks, names, i + 1)
    else if i + 1 >= |toks| then Err(IndexError)
    else if toks[i + 1].value != "=" then FirstAssignment(toks, names, i + 1)
    else if i + 2 >= |toks| then Err(IndexError)
    else if toks[i + 2].value != "[" && toks[i + 2].value != "(" then FirstAssignment(toks, names, i + 1)
    else Ok(Some(i))
  }

  /**
   * The search finds the first assignment at or after i, finds none when
   * there is none, and fails only on a requested NAME among the last two
   * tokens.
   */
  lemma {:induction false} FirstAssignmentMeaning(toks: seq<Token>, names: seq<string>, i: nat)
    ensures FirstAssignment(toks, names, i).Ok? && FirstAssignment(toks, names, i).value.Some? ==>
      var k := FirstAssignment(toks, names, i).value.value;
      i <= k && AssignmentAt(toks, names, k) && forall m :: i <= m < k ==> !AssignmentAt(toks, names, m)
    ensures FirstAssignment(toks, names, i) == Ok(None) ==> forall m :: i <= m ==> !AssignmentAt(toks, names, m)
    ensures FirstAssignment(toks, names, i).Err? ==>
      FirstAssignment(toks, names, i).error == IndexError
      && exists m :: i <= m < |toks| && |toks| <= m + 2 && toks[m].value in names && toks[m].kind == Name
    decreases |toks| - i
  {
    if i < |toks| {
      FirstAssignmentMeaning(toks, names, i + 1);
    }
  }

  /** The scan of the list opened by the bracket or parenthesis at toks[i]. */
  function ScanOpened(toks: seq<Token>, i: nat): Result<seq<string>>
    requires i < |toks|
  {
    if toks[i].value == "[" then Scan(toks, i, 1, 0) else Scan(toks, i, 0, 1)
  }

  /**
   * `find_list_of_string_literals_with_name`: None when no requested
   * variable is assigned a bracketed list, else the literals of the first
   * such list.
   */
  function FindList(names: seq<string>, toks: seq<Token>): Result<Option<seq<string>>> {
    match FirstAssignment(toks, names, 0)
    case Err(e) => Err(e)
    case Ok(None) => Ok(None)
    case Ok(Some(i)) =>
      FirstAssignmentMeaning(toks, names, 0);
      match ScanOpened(toks, i + 2)
      case Err(e) => Err(e)
      case Ok(vs) => Ok(Some(vs))
  }

  method FindListOfStringLiterals(names: seq<string>, toks: seq<Token>) returns (r: Result<Option<seq<string>>>)
    ensures r == FindList(names, toks)
  {
    var first: Option<nat> := None;
    var i := 0;
    while i < |toks|
      invariant i <= |toks|
      invariant FirstAssignment(toks, names, 0) == FirstAssignment(toks, names, i)
      decreases |toks| - i
    {
      if toks[i].value !in names || toks[i].kind != Name {
        i := i + 1;
        continue;
      }
      if i + 1 >= |toks| {
        return Err(IndexError);
      }
      if toks[i + 1].value != "=" {
        i := i + 1;
        continue;
      }
      if i + 2 >= |toks| {
        return Err(IndexError);
      }
      if toks[i + 2].value != "[" && toks[i + 2].value != "(" {
        i := i + 1;
        continue;
      }
      first := Some(i);
      break;
    }
    if first.None? {
      return Ok(None);
    }
    var at := first.value + 2;
    var nb, np := 0, 0;
    if toks[at].value == "[" {
      nb := nb + 1;
    } else {
      assert toks[at].value == "(";
      np := np + 1;
    }
    var values := ScanList(toks, at, nb, np);
    if values.Err? {
      return Err(values.error);
    }
    r := Ok(Some(values.value));
  }

  /**
   * toks[i] starts the first assignment of a requested variable to a
   * bracketed list, and the list body ends at toks[e].
   */
  predicate FirstListAt(toks: seq<Token>, names: seq<string>, i: nat, e: nat) {
    && AssignmentAt(toks, names, i)
    && (forall m: nat :: m < i ==> !AssignmentAt(toks, names, m))
    && ClosesAt(toks, i + 2, e, if toks[i + 2].value == "[" then 1 else 0, if toks[i + 2].value == "[" then 0 else 1)
  }

  /** A successful scan of the first assigned list gives the literals of its body. */
  lemma FirstListFound(toks: seq<Token>, names: seq<string>, i: nat)
    requires AssignmentAt(toks, names, i) && forall m :: 0 <= m < i ==> !AssignmentAt(toks, names, m)
    requires ScanOpened(toks, i + 2).Ok?
    ensures exists e: nat :: FirstListAt(toks, names, i, e) && ScanOpened(toks, i + 2).value == Literals(toks[i + 3..e + 1])
  {
    var nb := if toks[i + 2].value == "[" then 1 else 0;
    var np := if toks[i + 2].value == "[" then 0 else 1;
    ScanSound(toks, i + 2, nb, np);
    var e :| ClosesAt(toks, i + 2, e, nb, np) && Scan(toks, i + 2, nb, np).value == Literals(toks[i + 3..e + 1]);
    assert FirstListAt(toks, names, i, e);
  }

  /**
   * A result names the first assigned list: None when there is none, and
   * otherwise the stripped literals of a list body that starts after the
   * opening bracket of the first assignment.
   */
  lemma FindListMeaning(names: seq<string>, toks: seq<Token>)
    ensures FindList(names, toks) == Ok(None) ==> forall m: nat :: !AssignmentAt(toks, names, m)
    ensures FindList(names, toks).Ok? && FindList(names, toks).value.Some? ==>
      exists i: nat, e: nat :: FirstListAt(toks, names, i, e) && FindList(names, toks).value.value == Literals(toks[i + 3..e + 1])
  {
    FirstAssignmentMeaning(toks, names, 0);
    var f := FirstAssignment(toks, names, 0);
    if f.Ok? && f.value.Some? {
      var i := f.value.value;
      if ScanOpened(toks, i + 2).Ok? {
        FirstListFound(toks, names, i);
      }
    }
  }

  // ---------------------------------------------------------------------
  // find_dependencies_in_setuppy_fileobj

  /** A NAME token `requires` or `install_requires`. */
  predicate IsRequiresName(t: Token) {
    (t.value == "requires" || t.value == "install_requires") && t.kind == Name
  }

  /** The indices among the first n tokens that hold a requires NAME, in order. */
  function InterestingUpTo(toks: seq<Token>, n: nat): seq<nat>
    requires n <= |toks|
  {
    if n == 0 then []
    else InterestingUpTo(toks, n - 1) + (if IsRequiresName(toks[n - 1]) then [n - 1] else [])
  }

  /** The collected indices are exactly those of the requires NAMEs, increasing. */
  lemma {:induction false} InterestingMeaning(toks: seq<Token>, n: nat)
    requires n <= |toks|
    ensures forall k :: k in InterestingUpTo(toks, n) <==> 0 <= k < n && IsRequiresName(toks[k])
    ensures forall p :: 0 <= p < |InterestingUpTo(toks, n)| ==> InterestingUpTo(toks, n)[p] < n
    ensures forall p, q :: 0 <= p < q < |InterestingUpTo(toks, n)| ==> InterestingUpTo(toks, n)[p] < InterestingUpTo(toks, n)[q]
  {
    if n > 0 {
      InterestingMeaning(toks, n - 1);
    }
  }

  /** Tokens without a requires NAME add no index. */
  lemma {:induction false} InterestingSkips(toks: seq<Token>, a: nat, n: nat)
    requires a <= n <= |toks|
    requires forall k :: a <= k < n ==> !IsRequiresName(toks[k])
    ensures InterestingUpTo(toks, n) == InterestingUpTo(toks, a)
    decreases n - a
  {
    if a < n {
      InterestingSkips(toks, a, n - 1);
    }
  }

  const RequirementsFiletype: string := "requirements.txt"

  /**
   * One pass of the loop over the requires NAMEs, at toks[i], with the
   * dependencies `deps` collected so far and `found` saying whether any
   * were. `requirementsTxt` is the lines of the sdist's requirements.txt,
   * or None when it has none.
   *  - `requires = [` or `= (`: the scanned literals are appended to deps;
   *  - otherwise a line mentioning requirements.txt takes that file's lines,
   *    and raises when the sdist has none;
   *  - otherwise `requires = NAME ,` takes the list assigned to NAME
   *    elsewhere in the file, if there is one;
   *  - otherwise nothing changes.
   */
  function RequiresLine(toks: seq<Token>, requirementsTxt: Option<seq<string>>, i: nat, deps: seq<string>, found: bool)
    : Result<(seq<string>, bool)>
    requires i < |toks|
  {
    if i + 1 >= |toks| then Err(IndexError)
    else if toks[i + 1].value == "=" && i + 2 >= |toks| then Err(IndexError)
    else if toks[i + 1].value == "=" && (toks[i + 2].value == "[" || toks[i + 2].value == "(") then
      match ScanOpened(toks, i + 2)
      case Err(e) => Err(e)
      case Ok(vs) => Ok((deps + vs, true))
    else if Contains(toks[i].line, RequirementsFiletype) then
      match requirementsTxt
      case None => Err(BareException)
      case Some(lines) => Ok((lines, true))
    else if toks[i + 1].value == "=" && toks[i + 2].kind == Name && i + 3 >= |toks| then Err(IndexError)
    else if toks[i + 1].value == "=" && toks[i + 2].kind == Name && toks[i + 3].value == "," then
      match FindList([toks[i + 2].value], toks)
      case Err(e) => Err(e)
      case Ok(None) => Ok((deps, found))
      case Ok(Some(vs)) => Ok((vs, true))
    else Ok((deps, found))
  }

  /** The loop over the requires NAMEs from position p of `interesting` on. */
  function RequiresLines(toks: seq<Token>, requirementsTxt: Option<seq<string>>, interesting: seq<nat>, p: nat,
                         deps: seq<string>, found: bool): Result<(seq<string>, bool)>
    requires forall k :: 0 <= k < |interesting| ==> interesting[k] < |toks|
    decreases |interesting| - p
  {
    if p >= |interesting| then Ok((deps, found))
    else
      match RequiresLine(toks, requirementsTxt, interesting[p], deps, found)
      case Err(e) => Err(e)
      case Ok((deps', found')) => RequiresLines(toks, requirementsTxt, interesting, p + 1, deps', found')
  }

  /**
   * `find_dependencies_in_setuppy_fileobj`: the dependencies found, [] when
   * the file has no requires NAME at all, else requirements.txt as a last
   * resort, else an exception.
   */
  function FindDependencies(toks: seq<Token>, requirementsTxt: Option<seq<string>>): Result<seq<string>> {
    var interesting := InterestingUpTo(toks, |toks|);
    InterestingMeaning(toks, |toks|);
    match RequiresLines(toks, requirementsTxt, interesting, 0, [], false)
    case Err(e) => Err(e)
    case Ok((deps, found)) =>
      if found || interesting == [] then Ok(deps)
      else if requirementsTxt.Some? then Ok(requirementsTxt.value)
      else Err(BareException)
  }

  /** The body of the loop over the requires NAMEs, at toks[i]. */
  method HandleRequiresLine(toks: seq<Token>, requirementsTxt: Option<seq<string>>, i: nat, deps: seq<string>, found: bool)
    returns (r: Result<(seq<string>, bool)>)
    requires i < |toks|
    ensures r == RequiresLine(toks, requirementsTxt, i, deps, found)
  {
    if i + 1 >= |toks| {
      return Err(IndexError);
    }
    if toks[i + 1].value == "=" && i + 2 >= |toks| {
      return Err(IndexError);
    }
    if toks[i + 1].value == "=" && (toks[i + 2].value == "[" || toks[i + 2].value == "(") {
      var nb, np := 0, 0;
      if toks[i + 2].value == "[" {
        nb := nb + 1;
      } else {
        assert toks[i + 2].value == "(";
        np := np + 1;
      }
      var values := ScanList(toks, i + 2, nb, np);
      if values.Err? {
        return Err(values.error);
      }
      return Ok((deps + values.value, true));
    } else if Contains(toks[i].line, RequirementsFiletype) {
      if requirementsTxt.None? {
        return Err(BareException);
      }
      return Ok((requirementsTxt.value, true));
    } else if toks[i + 1].value == "=" && toks[i + 2].kind == Name && (i + 3 >= |toks| || toks[i + 3].value == ",") {
      if i + 3 >= |toks| {
        return Err(IndexError);
      }
      var prefilled := FindListOfStringLiterals([toks[i + 2].value], toks);
      if prefilled.Err? {
        return Err(prefilled.error);
      }
      if prefilled.value.None? {
        return Ok((deps, found));
      }
      return Ok((prefilled.value.value, true));
    }
    return Ok((deps, found));
  }

  method FindDependenciesInSetuppy(toks: seq<Token>, requirementsTxt: Option<seq<string>>) returns (r: Result<seq<string>>)
    ensures r == FindDependencies(toks, requirementsTxt)
  {
    var interesting: seq<nat> := [];
    for i := 0 to |toks|
      invariant interesting == InterestingUpTo(toks, i)
    {
      if IsRequiresName(toks[i]) {
        interesting := interesting + [i];
      }
    }
    InterestingMeaning(toks, |toks|);
    var deps: seq<string> := [];
    var found := false;
    for p := 0 to |interesting|
      invariant RequiresLines(toks, requirementsTxt, interesting, 0, [], false)
        == RequiresLines(toks, requirementsTxt, interesting, p, deps, found)
    {
      var step := HandleRequiresLine(toks, requirementsTxt, interesting[p], deps, found);
      if step.Err? {
        return Err(step.error);
      }
      deps, found := step.value.0, step.value.1;
    }
    if found || interesting == [] {
      return Ok(deps);
    }
    if requirementsTxt.Some? {
      return Ok(requirementsTxt.value);
    }
    return Err(BareException);
  }

  /** A setup.py without a requires or install_requires NAME has no dependencies. */
  lemma NoRequiresNoDependencies(toks: seq<Token>, requirementsTxt: Option<seq<string>>)
    requires forall k :: 0 <= k < |toks| ==> !IsRequiresName(toks[k])
    ensures FindDependencies(toks, requirementsTxt) == Ok([])
  {
    InterestingSkips(toks, 0, |toks|);
    assert InterestingUpTo(toks, |toks|) == [];
  }

  /** toks[i] is a requires NAME none of whose patterns applies. */
  predicate Unmatched(toks: seq<Token>, i: nat) {
    i + 1 < |toks| && toks[i + 1].value != "=" && !Contains(toks[i].line, RequirementsFiletype)
  }

  lemma {:induction false} UnmatchedLines(toks: seq<Token>, requirementsTxt: Option<seq<string>>, interesting: seq<nat>, p: nat,
                                          deps: seq<string>, found: bool)
    requires forall k :: 0 <= k < |interesting| ==> interesting[k] < |toks| && Unmatched(toks, interesting[k])
    ensures RequiresLines(toks, requirementsTxt, interesting, p, deps, found) == Ok((deps, found))
    decreases |interesting| - p
  {
    if p < |interesting| {
      UnmatchedLines(toks, requirementsTxt, interesting, p + 1, deps, found);
    }
  }

  /**
   * When requires NAMEs are present but none is followed by '=' or sits on
   * a line mentioning requirements.txt, the last resort is the sdist's
   * requirements.txt, and without one the call raises.
   */
  lemma LastResort(toks: seq<Token>, requirementsTxt: Option<seq<string>>)
    requires exists k :: 0 <= k < |toks| && IsRequiresName(toks[k])
    requires forall k :: 0 <= k < |toks| && IsRequiresName(toks[k]) ==> Unmatched(toks, k)
    ensures requirementsTxt.Some? ==> FindDependencies(toks, requirementsTxt) == Ok(requirementsTxt.value)
    ensures requirementsTxt.None? ==> FindDependencies(toks, requirementsTxt) == Err(BareException)
  {
    InterestingMeaning(toks, |toks|);
    var interesting := InterestingUpTo(toks, |toks|);
    forall k | 0 <= k < |interesting| ensures interesting[k] < |toks| && Unmatched(toks, interesting[k]) {
      assert interesting[k] in interesting;
    }
    UnmatchedLines(toks, requirementsTxt, interesting, 0, [], false);
    var k :| 0 <= k < |toks| && IsRequiresName(toks[k]);
    assert k in interesting;
  }

  /**
   * Two `requires = [...]` lines both feed the one result list: the
   * literals of the second are appended to those of the first.
   */
  lemma InlineListsAccumulate(toks: seq<Token>, requirementsTxt: Option<seq<string>>, i: nat, i': nat)
    requires i < i' && i' + 2 < |toks| && i + 2 < |toks|
    requires forall k :: 0 <= k < |toks| ==> (IsRequiresName(toks[k]) <==> k == i || k == i')
    requires toks[i + 1].value == "=" && toks[i + 2].value == "["
    requires toks[i' + 1].value == "=" && toks[i' + 2].value == "["
    requires ScanOpened(toks, i + 2).Ok? && ScanOpened(toks, i' + 2).Ok?
    ensures FindDependencies(toks, requirementsTxt) == Ok(ScanOpened(toks, i + 2).value + ScanOpened(toks, i' + 2).value)
  {
    InterestingTwo(toks, i, i');
    var interesting := InterestingUpTo(toks, |toks|);
    var first := ScanOpened(toks, i + 2).value;
    var second := ScanOpened(toks, i' + 2).value;
    InlineList(toks, requirementsTxt, i, [], false);
    InlineList(toks, requirementsTxt, i', first, true);
    assert [] + first == first;
    assert RequiresLines(toks, requirementsTxt, interesting, 2, first + second, true) == Ok((first + second, true));
    assert RequiresLines(toks, requirementsTxt, interesting, 1, first, true) == Ok((first + second, true));
    assert RequiresLines(toks, requirementsTxt, interesting, 0, [], false) == Ok((first + second, true));
  }

  /** The requires NAMEs at exactly i and i' are the two interesting indices. */
  lemma InterestingTwo(toks: seq<Token>, i: nat, i': nat)
    requires i < i' < |toks|
    requires forall k :: 0 <= k < |toks| ==> (IsRequiresName(toks[k]) <==> k == i || k == i')
    ensures InterestingUpTo(toks, |toks|) == [i, i']
  {
    InterestingSkips(toks, i' + 1, |toks|);
    InterestingSkips(toks, i + 1, i');
    InterestingSkips(toks, 0, i);
    assert InterestingUpTo(toks, i + 1) == [] + [i];
    assert InterestingUpTo(toks, i' + 1) == [i] + [i'];
  }

  /** `requires = [` appends the scanned literals and marks dependencies found. */
  lemma InlineList(toks: seq<Token>, requirementsTxt: Option<seq<string>>, i: nat, deps: seq<string>, found: bool)
    requires i + 2 < |toks| && toks[i + 1].value == "=" && toks[i + 2].value == "["
    requires ScanOpened(toks, i + 2).Ok?
    ensures RequiresLine(toks, requirementsTxt, i, deps, found) == Ok((deps + ScanOpened(toks, i + 2).value, true))
  {
  }

  // ---------------------------------------------------------------------
  // find_metadata_files_in_package

  const SetuppyFiletype: string := "setup.py"

  /** METADATA_FILETYPES */
  const MetadataFiletypes: seq<string> := [SetuppyFiletype, RequirementsFiletype]

  /** The inner loop for one member name: it is stored under every filetype it ends with. */
  function Record(m: map<string, string>, fname: string, filetypes: seq<string>): map<string, string> {
    if filetypes == [] then m
    else
      var m' := Record(m, fname, filetypes[..|filetypes| - 1]);
      var filetype := filetypes[|filetypes| - 1];
      if EndsWith(fname, "/" + filetype) then m'[filetype := fname] else m'
  }

  /** After the inner loop, a filetype the name ends with maps to the name; the others are as before. */
  lemma {:induction false} RecordMeaning(m: map<string, string>, fname: string, filetypes: seq<string>, filetype: string)
    ensures filetype in Record(m, fname, filetypes) <==> filetype in m || (filetype in filetypes && EndsWith(fname, "/" + filetype))
    ensures filetype in filetypes && EndsWith(fname, "/" + filetype) ==> Record(m, fname, filetypes)[filetype] == fname
    ensures !(filetype in filetypes && EndsWith(fname, "/" + filetype)) && filetype in m ==>
      Record(m, fname, filetypes)[filetype] == m[filetype]
    ensures Record(m, fname, filetypes).Keys <= m.Keys + set f | f in filetypes
  {
    if filetypes != [] {
      var init := filetypes[..|filetypes| - 1];
      RecordMeaning(m, fname, init, filetype);
      assert filetypes == init + [filetypes[|filetypes| - 1]];
    }
  }

  /**
   * The dictionary `find_metadata_files_in_package` builds from the
   * archive's member names, as written: every member ending in
   * '/' + filetype is stored under that filetype, so a later one
   * overwrites an earlier one.
   */
  function MetadataFiles(names: seq<string>): map<string, string> {
    if names == [] then map[]
    else Record(MetadataFiles(names[..|names| - 1]), names[|names| - 1], MetadataFiletypes)
  }

  /** The nested loop of `find_metadata_files_in_package` over the member names. */
  method FindMetadataFilesInPackage(names: seq<string>) returns (m: map<string, string>)
    ensures m == MetadataFiles(names)
  {
    m := map[];
    for k := 0 to |names|
      invariant m == MetadataFiles(names[..k])
    {
      var fname := names[k];
      ghost var m0 := m;
      for t := 0 to |MetadataFiletypes|
        invariant m == Record(m0, fname, MetadataFiletypes[..t])
      {
        var filetype := MetadataFiletypes[t];
        assert MetadataFiletypes[..t + 1][..t] == MetadataFiletypes[..t];
        if EndsWith(fname, "/" + filetype) {
          m := m[filetype := fname];
        }
      }
      assert MetadataFiletypes[..|MetadataFiletypes|] == MetadataFiletypes;
      assert names[..k + 1][..k] == names[..k];
    }
    assert names[..|names|] == names;
  }

  /** names[k] is the last member ending in '/' + filetype. */
  predicate LastWith(names: seq<string>, filetype: string, k: nat) {
    k < |names| && EndsWith(names[k], "/" + filetype)
    && forall k' :: k < k' < |names| ==> !EndsWith(names[k'], "/" + filetype)
  }

  /** As written, each filetype present is mapped to the LAST member that ends with it. */
  lemma {:induction false} MetadataFilesKeepLast(names: seq<string>, filetype: string)
    requires filetype in MetadataFiletypes
    ensures filetype in MetadataFiles(names) <==> exists k :: 0 <= k < |names| && EndsWith(names[k], "/" + filetype)
    ensures filetype in MetadataFiles(names) ==> exists k: nat :: LastWith(names, filetype, k) && MetadataFiles(names)[filetype] == names[k]
    ensures MetadataFiles(names).Keys <= set f | f in MetadataFiletypes
    decreases |names|
  {
    if names != [] {
      var init := names[..|names| - 1];
      var last := |names| - 1;
      MetadataFilesKeepLast(init, filetype);
      RecordMeaning(MetadataFiles(init), names[last], MetadataFiletypes, filetype);
      assert forall k :: 0 <= k < |init| ==> init[k] == names[k];
      if EndsWith(names[last], "/" + filetype) {
        assert LastWith(names, filetype, last);
      } else if filetype in MetadataFiles(init) {
        var k: nat :| LastWith(init, filetype, k) && MetadataFiles(init)[filetype] == init[k];
        assert LastWith(names, filetype, k);
      }
    }
  }

  /**
   * The dictionary the comment in `find_metadata_files_in_package`
   * describes: each filetype is mapped to the FIRST member ending in
   * '/' + filetype.
   */
  function MetadataFilesFirst(names: seq<string>): map<string, string> {
    if names == [] then map[]
    else Record(MetadataFilesFirst(names[1..]), names[0], MetadataFiletypes)
  }

  /** names[k] is the first member ending in '/' + filetype. */
  predicate FirstWith(names: seq<string>, filetype: string, k: nat) {
    k < |names| && EndsWith(names[k], "/" + filetype)
    && forall k' :: 0 <= k' < k ==> !EndsWith(names[k'], "/" + filetype)
  }

  /** The corrected dictionary maps each filetype present to the first member that ends with it. */
  lemma {:induction false} MetadataFilesKeepFirst(names: seq<string>, filetype: string)
    requires filetype in MetadataFiletypes
    ensures filetype in MetadataFilesFirst(names) <==> exists k :: 0 <= k < |names| && EndsWith(names[k], "/" + filetype)
    ensures filetype in MetadataFilesFirst(names) ==> exists k: nat :: FirstWith(names, filetype, k) && MetadataFilesFirst(names)[filetype] == names[k]
    ensures MetadataFilesFirst(names).Keys <= set f | f in MetadataFiletypes
    decreases |names|
  {
    if names != [] {
      var tail := names[1..];
      MetadataFilesKeepFirst(tail, filetype);
      RecordMeaning(MetadataFilesFirst(tail), names[0], MetadataFiletypes, filetype);
      assert forall k :: 0 <= k < |tail| ==> tail[k] == names[k + 1];
      if EndsWith(names[0], "/" + filetype) {
        assert FirstWith(names, filetype, 0);
      } else if filetype in MetadataFilesFirst(tail) {
        var k: nat :| FirstWith(tail, filetype, k) && MetadataFilesFirst(tail)[filetype] == tail[k];
        assert FirstWith(names, filetype, k + 1);
      }
      if exists k :: 0 <= k < |names| && EndsWith(names[k], "/" + filetype) {
        var k :| 0 <= k < |names| && EndsWith(names[k], "/" + filetype);
        if k > 0 {
          assert EndsWith(tail[k - 1], "/" + filetype);
        }
      }
    }
  }

  // ---------------------------------------------------------------------
  // Examples

  /** The tokens of the line `REQUIREMENTS = ['numpy', 'dancer==3.0']`. */
  function RequirementsLine(): seq<Token> {
    var line := "REQUIREMENTS = ['numpy', 'dancer==3.0']\n";
    [Token(Name, "REQUIREMENTS", line), Token(Op, "=", line), Token(Op, "[", line),
     Token(Str, "'numpy'", line), Token(Op, ",", line), Token(Str, "'dancer==3.0'", line),
     Token(Op, "]", line), Token(Other, "\n", line)]
  }

  lemma QuotedLiterals()
    ensures StripOutsideQuotes("'numpy'") == Ok("numpy")
    ensures StripOutsideQuotes("'dancer==3.0'") == Ok("dancer==3.0")
  {
    StripQuoted('\'', "numpy");
    StripQuoted('\'', "dancer==3.0");
    assert "'numpy'" == ['\''] + "numpy" + ['\''];
    assert "'dancer==3.0'" == ['\''] + "dancer==3.0" + ['\''];
  }

  /** The list after the '[' holds the two literals. */
  lemma RequirementsLineScan(toks: seq<Token>)
    requires toks == RequirementsLine()
    ensures Scan(toks, 2, 1, 0) == Ok(["numpy", "dancer==3.0"])
  {
    QuotedLiterals();
    assert Scan(toks, 5, 1, 0) == Ok([]);
    assert Classify(toks[5]) == Literal;
    assert ["dancer==3.0"] + [] == ["dancer==3.0"];
    assert Scan(toks, 4, 1, 0) == Ok(["dancer==3.0"]);
    assert Scan(toks, 3, 1, 0) == Ok(["dancer==3.0"]);
    assert Classify(toks[3]) == Literal;
    assert ["numpy"] + ["dancer==3.0"] == ["numpy", "dancer==3.0"];
  }

  /** The variable's list is found and its two literals come back without their quotes. */
  lemma RequirementsLineExample(toks: seq<Token>)
    requires toks == RequirementsLine()
    ensures FindList(["REQUIREMENTS"], toks) == Ok(Some(["numpy", "dancer==3.0"]))
  {
    assert FirstAssignment(toks, ["REQUIREMENTS"], 0) == Ok(Some(0));
    RequirementsLineScan(toks);
  }

  /** Another variable name finds nothing. */
  lemma OtherNameExample(toks: seq<Token>)
    requires toks == RequirementsLine()
    ensures FindList(["REQUIRED"], toks) == Ok(None)
  {
    assert FirstAssignment(toks, ["REQUIRED"], 0) == Ok(None);
  }

  /** A member that is a setup.py and not a requirements.txt is stored under setup.py only. */
  lemma RecordSetuppyOnly(m: map<string, string>, fname: string)
    requires EndsWith(fname, "/" + SetuppyFiletype) && !EndsWith(fname, "/" + RequirementsFiletype)
    ensures Record(m, fname, MetadataFiletypes) == m[SetuppyFiletype := fname]
  {
    var fts := MetadataFiletypes;
    assert |fts| == 2 && fts[1] == RequirementsFiletype;
    assert fts[..1] == [SetuppyFiletype] && fts[..1][..0] == [];
    assert Record(m, fname, []) == m;
    assert Record(m, fname, fts[..1]) == m[SetuppyFiletype := fname];
  }

  lemma NestedSetuppyFacts()
    ensures EndsWith("pkg-1.0/setup.py", "/" + SetuppyFiletype)
    ensures EndsWith("pkg-1.0/tests/setup.py", "/" + SetuppyFiletype)
    ensures !EndsWith("pkg-1.0/setup.py", "/" + RequirementsFiletype)
    ensures !EndsWith("pkg-1.0/tests/setup.py", "/" + RequirementsFiletype)
  {
    var a, b := "pkg-1.0/setup.py", "pkg-1.0/tests/setup.py";
    var s, r := "/" + SetuppyFiletype, "/" + RequirementsFiletype;
    assert s == "/setup.py" && |s| == 9 && |r| == 17;
    OccursAtSlice(a, s, |a| - 9);
    OccursAtSlice(b, s, |b| - 9);
    assert a[|a| - 9..] == s && b[|b| - 9..] == s;
    assert |a| < 17;
    OccursAtSlice(b, r, |b| - 17);
    assert b[|b| - 17..][0] != r[0];
  }

  /**
   * With a second setup.py further down the archive, the dictionary as
   * written holds the nested one, while the first one is the package's.
   */
  lemma NestedSetuppyExample(names: seq<string>)
    requires names == ["pkg-1.0/setup.py", "pkg-1.0/tests/setup.py"]
    ensures MetadataFiles(names) == map[SetuppyFiletype := "pkg-1.0/tests/setup.py"]
    ensures MetadataFilesFirst(names) == map[SetuppyFiletype := "pkg-1.0/setup.py"]
  {
    var a, b := "pkg-1.0/setup.py", "pkg-1.0/tests/setup.py";
    NestedSetuppyFacts();
    RecordSetuppyOnly(map[], a);
    RecordSetuppyOnly(map[], b);
    RecordSetuppyOnly(map[SetuppyFiletype := a], b);
    RecordSetuppyOnly(map[SetuppyFiletype := b], a);
    assert names[..1] == [a] && names[..1][..0] == [];
    assert names[1..] == [b] && names[1..][1..] == [];
    assert map[SetuppyFiletype := a][SetuppyFiletype := b] == map[SetuppyFiletype := b];
    assert map[SetuppyFiletype := b][SetuppyFiletype := a] == map[SetuppyFiletype := a];
    assert MetadataFiles(names[..1]) == map[][SetuppyFiletype := a];
    assert MetadataFiles(names) == Record(map[][SetuppyFiletype := a], b, MetadataFiletypes);
    assert MetadataFilesFirst(names[1..]) == map[][SetuppyFiletype := b];
    assert MetadataFilesFirst(names) == Record(map[][SetuppyFiletype := b], a, MetadataFiletypes);
  }
}
