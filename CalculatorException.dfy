/**
 * The typed error raised while a formula is parsed or evaluated: a closed
 * set of error kinds with fallback message templates, an immutable kind and
 * localized message fixed at construction, optional context fields set
 * later, and the two renderings of the error (for the user and for logs).
 */
module Calc {
  import opened Optional
  import opened Strings

  /** The closed set of error kinds. */
  datatype ErrorType = UnexpectedToken | WrongParameterCount | WrongType | MissingVariableValue | Other

  /** The constant's Java name, which is how string concatenation prints it. */
  function Name(t: ErrorType): string {
    match t
    case UnexpectedToken => "UNEXPECTED_TOKEN"
    case WrongParameterCount => "WRONG_PARAMETER_COUNT"
    case WrongType => "WRONG_TYPE"
    case MissingVariableValue => "MISSING_VARIABLE_VALUE"
    case Other => "OTHER"
  }

  /** Distinct kinds print distinctly (their names even differ in length). */
  lemma NamesDistinct(s: ErrorType, t: ErrorType)
    requires s != t
    ensures Name(s) != Name(t)
  {
    assert |Name(s)| != |Name(t)|;
  }

  /** Every kind still uses the placeholder string resource 0. */
  function MessageResId(t: ErrorType): int {
    0
  }

  /** How many message parameters each kind is documented to take. */
  function ParameterCount(t: ErrorType): nat {
    match t
    case UnexpectedToken => 1
    case WrongParameterCount => 3
    case WrongType => 3
    case MissingVariableValue => 1
    case Other => 1
  }

  // ---------------------------------------------------------------------
  // Format strings as literal text and positional placeholders
  // ---------------------------------------------------------------------

  /** A piece of a format string: literal text, or the placeholder `%n$s`. */
  datatype Segment = Text(text: string) | Param(index: nat)

  /** The positional string placeholder for argument `n`. */
  function Placeholder(n: nat): string {
    "%" + NatToString(n) + "$s"
  }

  /** The text one segment stands for. */
  function Spelled(segment: Segment): string {
    match segment
    case Text(t) => t
    case Param(n) => Placeholder(n)
  }

  /** The format string a sequence of segments spells. */
  function Render(tpl: seq<Segment>): string {
    if tpl == [] then "" else Spelled(tpl[0]) + Render(tpl[1..])
  }

  /** The argument positions a format string refers to. */
  function Params(tpl: seq<Segment>): set<nat> {
    set i | 0 <= i < |tpl| && tpl[i].Param? :: tpl[i].index
  }

  /** Each kind's fallback format, as text and placeholders; no placeholder goes past the kind's arguments. */
  function Template(t: ErrorType): (tpl: seq<Segment>)
    ensures forall i :: 0 <= i < |tpl| && tpl[i].Param? ==> 1 <= tpl[i].index <= ParameterCount(t)
  {
    match t
    case UnexpectedToken =>
      [Text("Invalid formula, expected '"), Param(1), Text("'")]
    case WrongParameterCount =>
      [Text("Wrong parameter count, expected min="), Param(1), Text(", max="), Param(2), Text(", got "), Param(3)]
    case WrongType =>
      [Text("Wrong value type, expected '"), Param(1), Text("', got '"), Param(2), Text("' of type '"), Param(3), Text("'")]
    case MissingVariableValue =>
      [Text("Value missing for variable(s): "), Param(1)]
    case Other =>
      [Text("Problem during evaluation: '"), Param(1), Text("'")]
  }

  /** Each kind's template refers to exactly the arguments 1 up to its parameter count. */
  lemma FallbackParameters(t: ErrorType)
    ensures forall n: nat :: n in Params(Template(t)) <==> 1 <= n <= ParameterCount(t)
  {
    var tpl := Template(t);
    match t
    case UnexpectedToken =>
      assert tpl[1].index == 1;
    case WrongParameterCount =>
      assert tpl[1].index == 1 && tpl[3].index == 2 && tpl[5].index == 3;
    case WrongType =>
      assert tpl[1].index == 1 && tpl[3].index == 2 && tpl[5].index == 3;
    case MissingVariableValue =>
      assert tpl[1].index == 1;
    case Other =>
      assert tpl[1].index == 1;
  }

  /** Every placeholder of a template appears in the format string it spells, at a returned offset. */
  lemma {:induction false} PlaceholderRendered(tpl: seq<Segment>, i: int) returns (at: nat)
    requires 0 <= i < |tpl| && tpl[i].Param?
    ensures at + |Placeholder(tpl[i].index)| <= |Render(tpl)|
    ensures Render(tpl)[at..at + |Placeholder(tpl[i].index)|] == Placeholder(tpl[i].index)
  {
    var head := Spelled(tpl[0]);
    if i == 0 {
      at := 0;
    } else {
      var rest := PlaceholderRendered(tpl[1..], i - 1);
      at := |head| + rest;
    }
  }

  /** Every argument a template refers to appears in the format string it spells. */
  lemma ParamRendered(tpl: seq<Segment>, n: nat) returns (at: nat)
    requires n in Params(tpl)
    ensures at + |Placeholder(n)| <= |Render(tpl)|
    ensures Render(tpl)[at..at + |Placeholder(n)|] == Placeholder(n)
  {
    var i :| 0 <= i < |tpl| && tpl[i].Param? && tpl[i].index == n;
    at := PlaceholderRendered(tpl, i);
  }

  /** `p` occurs in `s`. */
  ghost predicate Occurs(p: string, s: string) {
    exists at: nat :: at <= |s| && p <= s[at..]
  }

  /** The fallback message format of each kind, a Java format string naming every argument the kind takes. */
  function MessageFallback(t: ErrorType): (r: string)
    ensures forall n: nat :: 1 <= n <= ParameterCount(t) ==> Occurs(Placeholder(n), r)
  {
    var r := Render(Template(t));
    assert forall n: nat :: 1 <= n <= ParameterCount(t) ==> Occurs(Placeholder(n), r) by {
      forall n: nat | 1 <= n <= ParameterCount(t) ensures Occurs(Placeholder(n), r) {
        FallbackParameters(t);
        var at := ParamRendered(Template(t), n);
        assert Placeholder(n) <= r[at..];
      }
    }
    r
  }

  // ---------------------------------------------------------------------
  // Context strings
  // ---------------------------------------------------------------------

  /** How Java string concatenation prints a possibly-null string. */
  function Show(s: Option<string>): string {
    if s.None? then "null" else s.value
  }

  const FunctionPrefix: string := "Function '"

  /** The function context recorded by `setFunction`. */
  function FunctionContext(name: Option<string>): string {
    FunctionPrefix + Show(name) + "'"
  }

  /** Reads the function name back out of a function context. */
  function FunctionNameOf(context: string): Option<string> {
    if |FunctionPrefix| < |context| then Some(context[|FunctionPrefix|..|context| - 1]) else None
  }

  /** The function context keeps the printed name recoverable. */
  lemma FunctionContextRoundTrip(name: Option<string>)
    ensures FunctionNameOf(FunctionContext(name)) == Some(Show(name))
  {
    var s := FunctionContext(name);
    assert s == FunctionPrefix + (Show(name) + "'");
    assert s[|FunctionPrefix|..] == Show(name) + "'";
    assert s[|FunctionPrefix|..|s| - 1] == Show(name);
  }

  const ParsedCharPrefix: string := "(while parsing '"
  const ParsedPosInfix: string := "' at position "

  /** The parsing context recorded by `setParsingContext`. */
  function ParsingContext(parsedChar: char, parsedPos: int): string {
    ParsedCharPrefix + [parsedChar] + ParsedPosInfix + IntToString(parsedPos) + ")"
  }

  /** The character a parsing context names. */
  function ParsedCharOf(context: string): Option<char> {
    if |ParsedCharPrefix| < |context| then Some(context[|ParsedCharPrefix|]) else None
  }

  /** The position a parsing context names, when it spells a Java `int`. */
  function ParsedPosOf(context: string): Option<int> {
    var start := |ParsedCharPrefix| + 1 + |ParsedPosInfix|;
    if start + 1 < |context| then
      var digits := context[start..|context| - 1];
      if (digits[0] == '-' ==> AllDigits(digits[1..])) && (digits[0] != '-' ==> AllDigits(digits))
      then Some(ParseInt(digits))
      else None
    else None
  }

  /** The parsing context keeps both the character and the position recoverable. */
  lemma ParsingContextRoundTrip(parsedChar: char, parsedPos: int)
    ensures ParsedCharOf(ParsingContext(parsedChar, parsedPos)) == Some(parsedChar)
    ensures ParsedPosOf(ParsingContext(parsedChar, parsedPos)) == Some(parsedPos)
  {
    var digits := IntToString(parsedPos);
    var head := ParsedCharPrefix + [parsedChar] + ParsedPosInfix;
    var s := ParsingContext(parsedChar, parsedPos);
    assert s == head + (digits + ")");
    assert s[|ParsedCharPrefix|] == head[|ParsedCharPrefix|] == parsedChar;
    assert s[|head|..] == digits + ")";
    assert s[|head|..|s| - 1] == digits;
    IntToStringRoundTrip(parsedPos);
  }

  /** Two parsing contexts agree only when they name the same character and position. */
  lemma ParsingContextInjective(c1: char, p1: int, c2: char, p2: int)
    requires ParsingContext(c1, p1) == ParsingContext(c2, p2)
    ensures c1 == c2 && p1 == p2
  {
    ParsingContextRoundTrip(c1, p1);
    ParsingContextRoundTrip(c2, p2);
  }

  // ---------------------------------------------------------------------
  // The exception object
  // ---------------------------------------------------------------------

  class CalculatorException {
    const errorType: ErrorType
    /** The localized message, computed once from the kind and its arguments. */
    const localizedMessage: string
    /** The message handed to the superclass, which `getMessage` extends. */
    const baseMessage: string

    var expression: Option<string>
    var functionContext: Option<string>
    var parsingContext: Option<string>
    /** The evaluation variables, as their map prints. */
    var evaluationVars: Option<string>

    /**
     * `localize` stands for the string-resource lookup that formats the
     * fallback with the arguments; it is called with the same inputs for the
     * stored and for the superclass message.
     */
    constructor (errorType: ErrorType, errorParams: seq<string>, localize: (int, string, seq<string>) -> string)
      ensures this.errorType == errorType
      ensures localizedMessage == localize(MessageResId(errorType), MessageFallback(errorType), errorParams)
      ensures baseMessage == "[" + Name(errorType) + "]" + localizedMessage
      ensures expression == None && functionContext == None && parsingContext == None && evaluationVars == None
    {
      var message := localize(MessageResId(errorType), MessageFallback(errorType), errorParams);
      this.errorType := errorType;
      localizedMessage := message;
      baseMessage := "[" + Name(errorType) + "]" + message;
      expression := None;
      functionContext := None;
      parsingContext := None;
      evaluationVars := None;
    }

    function GetErrorType(): (t: ErrorType)
      ensures t == errorType
    {
      errorType
    }

    method SetExpression(expression: Option<string>)
      modifies this
      ensures this.expression == expression
      ensures functionContext == old(functionContext) && parsingContext == old(parsingContext)
      ensures evaluationVars == old(evaluationVars)
    {
      this.expression := expression;
    }

    /** Records the function being evaluated; only the latest call is kept. */
    method SetFunction(name: Option<string>)
      modifies this
      ensures functionContext == Some(FunctionContext(name))
      ensures expression == old(expression) && parsingContext == old(parsingContext)
      ensures evaluationVars == old(evaluationVars)
    {
      functionContext := Some(FunctionPrefix + Show(name) + "'");
    }

    /** Records where parsing failed; only the latest call is kept. */
    method SetParsingContext(parsedChar: char, parsedPos: int)
      modifies this
      ensures parsingContext == Some(ParsingContext(parsedChar, parsedPos))
      ensures expression == old(expression) && functionContext == old(functionContext)
      ensures evaluationVars == old(evaluationVars)
    {
      parsingContext := Some(ParsedCharPrefix + [parsedChar] + ParsedPosInfix + IntToString(parsedPos) + ")");
    }

    method SetEvaluationContext(vars: Option<string>)
      modifies this
      ensures evaluationVars == vars
      ensures expression == old(expression) && functionContext == old(functionContext)
      ensures parsingContext == old(parsingContext)
    {
      evaluationVars := vars;
    }

    /** The message shown to the user: optional function prefix, message, optional parsing suffix. */
    function UserDisplayableString(): (r: string)
      reads this
      ensures functionContext.None? && parsingContext.None? ==> r == localizedMessage
      ensures var start := if functionContext.None? then 0 else |functionContext.value| + 2;
        start + |localizedMessage| <= |r| && r[start..start + |localizedMessage|] == localizedMessage
    {
      (if functionContext.None? then "" else functionContext.value + ": ")
      + localizedMessage
      + (if parsingContext.None? then "" else " " + parsingContext.value)
    }

    /** The log message: every part, unset ones printed as `null`. */
    function GetMessage(): (r: string)
      reads this
      ensures |baseMessage| + 1 <= |r| && r[..|baseMessage| + 1] == baseMessage + "/" && r[|r| - 1] == ']'
    {
      baseMessage + "/" + Show(functionContext) + "/" + Show(parsingContext)
      + "[" + Show(expression) + ": " + Show(evaluationVars) + "]"
    }
  }

  // ---------------------------------------------------------------------
  // Properties of the renderings
  // ---------------------------------------------------------------------

  /** With nothing set, the log message still carries every part, as `null`. */
  lemma MessageWhenUnset(e: CalculatorException)
    requires e.expression.None? && e.functionContext.None? && e.parsingContext.None? && e.evaluationVars.None?
    ensures e.GetMessage() == e.baseMessage + "/null/null[null: null]"
  {
  }

  /** After `setFunction(name)` the user message starts with the function and a colon. */
  lemma DisplayStartsWithFunction(e: CalculatorException, name: Option<string>)
    requires e.functionContext == Some(FunctionContext(name))
    ensures var prefix := FunctionPrefix + Show(name) + "': ";
      var r := e.UserDisplayableString();
      |prefix| <= |r| && r[..|prefix|] == prefix
  {
    var prefix := FunctionPrefix + Show(name) + "': ";
    var r := e.UserDisplayableString();
    assert prefix == FunctionContext(name) + ": ";
    assert r == prefix + (e.localizedMessage + (if e.parsingContext.None? then "" else " " + e.parsingContext.value));
  }

  /** After `setParsingContext(c, p)` the user message ends with where parsing failed. */
  lemma DisplayEndsWithParsingContext(e: CalculatorException, parsedChar: char, parsedPos: int)
    requires e.parsingContext == Some(ParsingContext(parsedChar, parsedPos))
    ensures var suffix := " " + ParsingContext(parsedChar, parsedPos);
      var r := e.UserDisplayableString();
      |suffix| <= |r| && r[|r| - |suffix|..] == suffix
  {
    var suffix := " " + ParsingContext(parsedChar, parsedPos);
    var head := (if e.functionContext.None? then "" else e.functionContext.value + ": ") + e.localizedMessage;
    assert e.UserDisplayableString() == head + suffix;
  }
}
