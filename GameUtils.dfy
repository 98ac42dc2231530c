// The arithmetic problem generator (src/utils/gameUtils.ts). Math.random() is
// not called here: the values it would return are passed in as a Draws record.
module GameUtils {
  import opened Types
  import opened JsText

  /** Math.pow(10, n) for a natural exponent. */
  function Pow10(n: nat): (r: nat)
    ensures r >= 1
  {
    if n == 0 then 1 else 10 * Pow10(n - 1)
  }

  /** The integers with exactly `digits` decimal digits. */
  predicate InDigitRange(v: int, digits: nat)
    requires digits >= 1
  {
    Pow10(digits - 1) <= v <= Pow10(digits) - 1
  }

  /** Math.floor(random * n) lies in [0, n) for random in [0, 1). */
  lemma ScaledFloorInRange(random: real, n: nat)
    requires 0.0 <= random < 1.0 && n >= 1
    ensures 0 <= (random * n as real).Floor < n
  {
    assert random * n as real < n as real by {
      assert (n as real) - random * n as real == (1.0 - random) * n as real;
    }
  }

  /** getRandomNumber: a number with exactly `digits` digits, drawn from the
      value `random` of Math.random(). */
  function RandomNumber(digits: nat, random: real): (r: int)
    requires digits >= 1
    requires 0.0 <= random < 1.0
    ensures InDigitRange(r, digits)
    ensures r >= 1
  {
    var min := Pow10(digits - 1);
    var max := Pow10(digits) - 1;
    ScaledFloorInRange(random, max - min + 1);
    (random * (max - min + 1) as real).Floor + min
  }

  /** Every number with exactly `digits` digits is drawn by some random value. */
  lemma RandomNumberCovers(digits: nat, v: int)
    requires digits >= 1 && InDigitRange(v, digits)
    ensures exists random: real :: 0.0 <= random < 1.0 && RandomNumber(digits, random) == v
  {
    var min := Pow10(digits - 1);
    var n := Pow10(digits) - 1 - min + 1;
    var random := ScaledFloorHits(v - min, n);
    assert RandomNumber(digits, random) == v;
  }

  /** The random value k / n draws k from Math.floor(random * n). */
  lemma ScaledFloorHits(k: nat, n: nat) returns (random: real)
    requires k < n
    ensures 0.0 <= random < 1.0 && (random * n as real).Floor == k
  {
    random := k as real / n as real;
    assert random * n as real == k as real;
  }

  /** A number in the range for `digits` is written with exactly that many digits. */
  lemma {:induction false} DecimalLength(v: nat, digits: nat)
    requires digits >= 1 && InDigitRange(v, digits)
    ensures |Decimal(v)| == digits
  {
    if digits > 1 {
      assert Pow10(digits - 1) == 10 * Pow10(digits - 2);
      DecimalLength(v / 10, digits - 1);
    }
  }

  /** The values Math.random() returns during one call of generateProblem: the
      operation index, the two operands, the division answer and divisor, and
      the horizontal position. */
  datatype Draws = Draws(operation: real, first: real, second: real, quotient: real, divisor: real, x: real)

  predicate DrawsInRange(d: Draws) {
    && 0.0 <= d.operation < 1.0
    && 0.0 <= d.first < 1.0
    && 0.0 <= d.second < 1.0
    && 0.0 <= d.quotient < 1.0
    && 0.0 <= d.divisor < 1.0
    && 0.0 <= d.x < 1.0
  }

  /** Where a new problem starts: above the visible play area. */
  const START_Y: real := -50.0

  /** The character the problem text shows for an operation. */
  /** The symbol is neither a digit nor a space nor the equals sign, so the
      operands and the symbol can be told apart in the text. */
  function Symbol(op: Operation): (c: char)
    ensures !IsDigit(c) && c != ' ' && c != '='
  {
    match op
    case Add => '+'
    case Sub => '-'
    case Mul => 'x'
    case Div => '\U{00F7}'
  }

  /** The display text `${left} <symbol> ${right} =`. */
  function ProblemText(left: nat, op: Operation, right: nat): string {
    Decimal(left) + [' ', Symbol(op), ' '] + Decimal(right) + " ="
  }

  /** The operation picked by settings.operations[Math.floor(Math.random() * length)]. */
  function ChosenOperation(operations: seq<Operation>, random: real): (op: Operation)
    requires |operations| > 0 && 0.0 <= random < 1.0
    ensures op in operations
  {
    ScaledFloorInRange(random, |operations|);
    operations[(random * |operations| as real).Floor]
  }

  /** Every enabled operation is picked by some random value. */
  lemma ChosenOperationCovers(operations: seq<Operation>, i: nat)
    requires i < |operations|
    ensures exists random: real :: 0.0 <= random < 1.0 && ChosenOperation(operations, random) == operations[i]
  {
    var random := ScaledFloorHits(i, |operations|);
    assert ChosenOperation(operations, random) == operations[i];
  }

  /** The digit count of a division problem's answer: one fewer than the
      operands', but at least one. */
  function QuotientDigits(digits: int): (d: nat)
    requires digits >= 1
    ensures d >= 1 && (digits > 1 ==> d == digits - 1) && (digits == 1 ==> d == 1)
  {
    if digits > 1 then digits - 1 else 1
  }

  /** The answer and divisor of a division problem, after the source's guards
      that replace a drawn 0 by 1. The guards never fire: both are exactly the
      drawn numbers. */
  function DivisionParts(digits: int, draws: Draws): (parts: (int, int))
    requires digits >= 1 && DrawsInRange(draws)
    ensures parts.0 == RandomNumber(QuotientDigits(digits), draws.quotient)
    ensures parts.1 == RandomNumber(digits, draws.divisor)
    ensures parts.0 >= 1 && parts.1 >= 1
  {
    var drawnAnswer := RandomNumber(QuotientDigits(digits), draws.quotient);
    var answer := if drawnAnswer == 0 then 1 else drawnAnswer;
    var drawnDivisor := RandomNumber(digits, draws.divisor);
    var divisor := if drawnDivisor == 0 then 1 else drawnDivisor;
    (answer, divisor)
  }

  /** The numbers a division problem is built from: its answer has one digit
      fewer than the settings ask for (but at least one), and its divisor has
      exactly that many. */
  lemma DivisionPartsDigits(digits: int, draws: Draws)
    requires digits >= 1 && DrawsInRange(draws)
    ensures |Decimal(DivisionParts(digits, draws).0)| == if digits > 1 then digits - 1 else 1
    ensures |Decimal(DivisionParts(digits, draws).1)| == digits
  {
    var parts := DivisionParts(digits, draws);
    DecimalLength(parts.0, QuotientDigits(digits));
    DecimalLength(parts.1, digits);
  }

  /** generateProblem: None stands for the source's `null` (no operation
      enabled, or a division whose dividend would reach 10^(digits+1)). */
  function GenerateProblem(settings: GameSettings, currentId: int, draws: Draws): (r: Option<Problem>)
    requires settings.digits >= 1
    requires DrawsInRange(draws)
    ensures r.Some? ==> r.value.id == currentId && r.value.y == START_Y
    ensures r.Some? ==> 10.0 <= r.value.x < 90.0
  {
    if |settings.operations| == 0 then None
    else
      var operation := ChosenOperation(settings.operations, draws.operation);
      var num1 := RandomNumber(settings.digits, draws.first);
      var num2 := RandomNumber(settings.digits, draws.second);
      var x := draws.x * 80.0 + 10.0;
      match operation
      case Add =>
        Some(Problem(currentId, ProblemText(num1, Add, num2), num1 + num2, x, START_Y))
      case Sub =>
        var (larger, smaller) := if num1 < num2 then (num2, num1) else (num1, num2);
        Some(Problem(currentId, ProblemText(larger, Sub, smaller), larger - smaller, x, START_Y))
      case Mul =>
        Some(Problem(currentId, ProblemText(num1, Mul, num2), num1 * num2, x, START_Y))
      case Div =>
        var (answer, divisor) := DivisionParts(settings.digits, draws);
        var dividend := answer * divisor;
        if dividend >= Pow10(settings.digits + 1) then None
        else Some(Problem(currentId, ProblemText(dividend, Div, divisor), answer, x, START_Y))
  }

  // ---------------------------------------------------------------------------
  // An independent reader of problem texts, to state what a generated problem
  // shows: the expression `left <symbol> right =` and its value.

  datatype Expression = Expression(left: nat, op: Operation, right: nat)

  function OperationOfSymbol(c: char): (r: Option<Operation>)
    ensures r.Some? ==> Symbol(r.value) == c
    ensures forall op :: Symbol(op) == c ==> r == Some(op)
  {
    if c == '+' then Some(Add)
    else if c == '-' then Some(Sub)
    else if c == 'x' then Some(Mul)
    else if c == '\U{00F7}' then Some(Div)
    else None
  }

  /** Reads `digits <space> symbol <space> digits <space> =` and nothing else. */
  function ParseExpression(text: string): Option<Expression> {
    var a := LeadingDigits(text);
    if a == [] then None
    else match ParseOperationAndRight(text[|a|..])
      case None => None
      case Some(opAndRight) => Some(Expression(DigitsValue(a), opAndRight.0, opAndRight.1))
  }

  /** Reads `<space> symbol <space> digits <space> =`. */
  function ParseOperationAndRight(rest: string): Option<(Operation, nat)> {
    if |rest| < 3 || rest[0] != ' ' || rest[2] != ' ' then None
    else match (OperationOfSymbol(rest[1]), ParseRight(rest[3..]))
      case (Some(op), Some(right)) => Some((op, right))
      case _ => None
  }

  /** Reads `digits <space> =`. */
  function ParseRight(tail: string): Option<nat> {
    var b := LeadingDigits(tail);
    if b == [] || tail[|b|..] != " =" then None else Some(DigitsValue(b))
  }

  /** The exact value of an expression; a division must come out whole. */
  function Evaluate(e: Expression): Option<int> {
    match e.op
    case Add => Some(e.left + e.right)
    case Sub => Some(e.left - e.right)
    case Mul => Some(e.left * e.right)
    case Div =>
      if e.right == 0 || e.left % e.right != 0 then None else Some(e.left / e.right)
  }

  /** The problem's text is an expression whose value is the problem's answer. */
  predicate ShowsItsAnswer(p: Problem) {
    match ParseExpression(p.text)
    case None => false
    case Some(e) => Evaluate(e) == Some(p.answer)
  }

  /** The text a problem is displayed with reads back as its expression. */
  lemma ProblemTextReadsBack(left: nat, op: Operation, right: nat)
    ensures ParseExpression(ProblemText(left, op, right)) == Some(Expression(left, op, right))
  {
    var rest := [' ', Symbol(op), ' '] + (Decimal(right) + " =");
    LeftReadsBack(left, op, right);
    OperationAndRightReadBack(op, right);
    ReadFromParts(ProblemText(left, op, right), rest, left, op, right);
  }

  lemma ReadFromParts(text: string, rest: string, left: nat, op: Operation, right: nat)
    requires LeadingDigits(text) == Decimal(left) && text[|Decimal(left)|..] == rest
    requires ParseOperationAndRight(rest) == Some((op, right))
    ensures ParseExpression(text) == Some(Expression(left, op, right))
  {
    DecimalRoundTrip(left);
  }

  lemma LeftReadsBack(left: nat, op: Operation, right: nat)
    ensures var text := ProblemText(left, op, right);
      && LeadingDigits(text) == Decimal(left)
      && text[|Decimal(left)|..] == [' ', Symbol(op), ' '] + (Decimal(right) + " =")
  {
    var rest := [' ', Symbol(op), ' '] + (Decimal(right) + " =");
    assert ProblemText(left, op, right) == Decimal(left) + rest;
    DecimalLeads(left, rest);
  }

  lemma OperationAndRightReadBack(op: Operation, right: nat)
    ensures ParseOperationAndRight([' ', Symbol(op), ' '] + (Decimal(right) + " =")) == Some((op, right))
  {
    var rest := [' ', Symbol(op), ' '] + (Decimal(right) + " =");
    RightReadsBack(right);
    assert rest[3..] == Decimal(right) + " =";
  }

  lemma RightReadsBack(right: nat)
    ensures ParseRight(Decimal(right) + " =") == Some(right)
  {
    var tail := Decimal(right) + " =";
    DecimalLeads(right, " =");
    assert tail[|Decimal(right)|..] == " =";
    DecimalRoundTrip(right);
  }

  /** A multiple of b divided by b comes out whole. */
  lemma ExactDivision(q: nat, b: nat)
    requires b >= 1
    ensures (q * b) % b == 0 && (q * b) / b == q
  {
    var m := q * b;
    var r, d := m % b, m / b;
    assert m == d * b + r && 0 <= r < b;
    MultipleGap(q, d, b);
  }

  /** Two multiples of b differ by 0 or by at least b. */
  lemma MultipleGap(q: int, d: int, b: int)
    requires b >= 1
    ensures q == d || q * b - d * b >= b || d * b - q * b >= b
  {
    var k := q - d;
    assert q * b - d * b == k * b;
    if k >= 1 {
      assert k * b == (k - 1) * b + b;
      assert (k - 1) * b >= 0;
    } else if k <= -1 {
      assert -k * b == (-k - 1) * b + b;
      assert (-k - 1) * b >= 0;
    }
  }

  /** generateProblem returns null exactly when no operation is enabled, or when
      the chosen operation is division and the dividend reaches 10^(digits+1). */
  lemma GenerateFailsOnlyOnLargeDividend(settings: GameSettings, currentId: int, draws: Draws)
    requires settings.digits >= 1 && DrawsInRange(draws)
    ensures GenerateProblem(settings, currentId, draws).None? <==>
      || |settings.operations| == 0
      || (&& ChosenOperation(settings.operations, draws.operation) == Div
          && var parts := DivisionParts(settings.digits, draws);
             parts.0 * parts.1 >= Pow10(settings.digits + 1))
  {
  }

  /** An addition problem shows the two drawn operands and its answer is their sum. */
  lemma GeneratedSum(settings: GameSettings, currentId: int, draws: Draws)
    requires settings.digits >= 1 && DrawsInRange(draws) && |settings.operations| > 0
    requires ChosenOperation(settings.operations, draws.operation) == Add
    ensures var num1 := RandomNumber(settings.digits, draws.first);
      var num2 := RandomNumber(settings.digits, draws.second);
      var r := GenerateProblem(settings, currentId, draws);
      && r.Some?
      && ParseExpression(r.value.text) == Some(Expression(num1, Add, num2))
      && r.value.answer == num1 + num2
      && ShowsItsAnswer(r.value)
  {
    var num1 := RandomNumber(settings.digits, draws.first);
    var num2 := RandomNumber(settings.digits, draws.second);
    var p := GenerateProblem(settings, currentId, draws).value;
    assert p.text == ProblemText(num1, Add, num2) && p.answer == num1 + num2;
    ProblemShows(p, num1, Add, num2);
  }

  /** A subtraction problem shows the larger drawn operand first and its answer
      is their non-negative difference. */
  lemma GeneratedDifference(settings: GameSettings, currentId: int, draws: Draws)
    requires settings.digits >= 1 && DrawsInRange(draws) && |settings.operations| > 0
    requires ChosenOperation(settings.operations, draws.operation) == Sub
    ensures var num1 := RandomNumber(settings.digits, draws.first);
      var num2 := RandomNumber(settings.digits, draws.second);
      var larger := if num1 < num2 then num2 else num1;
      var smaller := if num1 < num2 then num1 else num2;
      var r := GenerateProblem(settings, currentId, draws);
      && r.Some?
      && ParseExpression(r.value.text) == Some(Expression(larger, Sub, smaller))
      && r.value.answer == larger - smaller >= 0
      && ShowsItsAnswer(r.value)
  {
    var num1 := RandomNumber(settings.digits, draws.first);
    var num2 := RandomNumber(settings.digits, draws.second);
    var larger := if num1 < num2 then num2 else num1;
    var smaller := if num1 < num2 then num1 else num2;
    var p := GenerateProblem(settings, currentId, draws).value;
    assert p.text == ProblemText(larger, Sub, smaller) && p.answer == larger - smaller;
    ProblemShows(p, larger, Sub, smaller);
  }

  /** A multiplication problem shows the two drawn operands and its answer is
      their product. */
  lemma GeneratedProduct(settings: GameSettings, currentId: int, draws: Draws)
    requires settings.digits >= 1 && DrawsInRange(draws) && |settings.operations| > 0
    requires ChosenOperation(settings.operations, draws.operation) == Mul
    ensures var num1 := RandomNumber(settings.digits, draws.first);
      var num2 := RandomNumber(settings.digits, draws.second);
      var r := GenerateProblem(settings, currentId, draws);
      && r.Some?
      && ParseExpression(r.value.text) == Some(Expression(num1, Mul, num2))
      && r.value.answer == num1 * num2 >= 1
      && ShowsItsAnswer(r.value)
  {
    var num1 := RandomNumber(settings.digits, draws.first);
    var num2 := RandomNumber(settings.digits, draws.second);
    var p := GenerateProblem(settings, currentId, draws).value;
    assert p.text == ProblemText(num1, Mul, num2) && p.answer == num1 * num2;
    ProductPositive(num1, num2);
    ProblemShows(p, num1, Mul, num2);
  }

  lemma ProductPositive(a: int, b: int)
    requires a >= 1 && b >= 1
    ensures a * b >= 1
  {
    assert a * b == (a - 1) * b + b;
    assert (a - 1) * b >= 0;
  }

  /** A division problem that is generated shows the dividend answer * divisor
      and the divisor, and its answer is the drawn answer, which the division
      gives back exactly. */
  lemma GeneratedQuotient(settings: GameSettings, currentId: int, draws: Draws)
    requires settings.digits >= 1 && DrawsInRange(draws) && |settings.operations| > 0
    requires ChosenOperation(settings.operations, draws.operation) == Div
    requires GenerateProblem(settings, currentId, draws).Some?
    ensures var (answer, divisor) := DivisionParts(settings.digits, draws);
      var p := GenerateProblem(settings, currentId, draws).value;
      && ParseExpression(p.text) == Some(Expression(answer * divisor, Div, divisor))
      && p.answer == answer
      && answer * divisor < Pow10(settings.digits + 1)
      && (answer * divisor) % divisor == 0 && (answer * divisor) / divisor == answer
      && ShowsItsAnswer(p)
  {
    var (answer, divisor) := DivisionParts(settings.digits, draws);
    var p := GenerateProblem(settings, currentId, draws).value;
    assert p.text == ProblemText(answer * divisor, Div, divisor) && p.answer == answer;
    ExactDivision(answer, divisor);
    ProblemShows(p, answer * divisor, Div, divisor);
  }

  /** Every generated problem's text is an expression whose value is the
      problem's answer, and that answer is never negative. */
  lemma GeneratedProblemShowsItsAnswer(settings: GameSettings, currentId: int, draws: Draws)
    requires settings.digits >= 1 && DrawsInRange(draws)
    requires GenerateProblem(settings, currentId, draws).Some?
    ensures ShowsItsAnswer(GenerateProblem(settings, currentId, draws).value)
    ensures GenerateProblem(settings, currentId, draws).value.answer >= 0
  {
    match ChosenOperation(settings.operations, draws.operation)
    case Add => GeneratedSum(settings, currentId, draws);
    case Sub => GeneratedDifference(settings, currentId, draws);
    case Mul => GeneratedProduct(settings, currentId, draws);
    case Div => GeneratedQuotient(settings, currentId, draws);
  }

  /** A problem whose text is the display text of an expression, and whose
      answer is that expression's value, shows its answer. */
  lemma ProblemShows(p: Problem, left: nat, op: Operation, right: nat)
    requires p.text == ProblemText(left, op, right)
    requires Evaluate(Expression(left, op, right)) == Some(p.answer)
    ensures ParseExpression(p.text) == Some(Expression(left, op, right))
    ensures ShowsItsAnswer(p)
  {
    ProblemTextReadsBack(left, op, right);
  }

  /** With one or two digits a division problem always fits, so generateProblem
      never returns null once an operation is enabled. */
  lemma SmallDivisionsFit(settings: GameSettings, currentId: int, draws: Draws)
    requires settings.digits == 1 || settings.digits == 2
    requires |settings.operations| > 0 && DrawsInRange(draws)
    ensures GenerateProblem(settings, currentId, draws).Some?
  {
    var (answer, divisor) := DivisionParts(settings.digits, draws);
    var bound := if settings.digits == 1 then 9 else 99;
    assert 1 <= answer <= 9 && 1 <= divisor <= bound;
    ProductBound(answer, divisor, 9, bound);
    assert Pow10(settings.digits + 1) == 10 * (bound + 1);
  }

  lemma ProductBound(a: int, b: int, ma: int, mb: int)
    requires 0 <= a <= ma && 0 <= b <= mb
    ensures a * b <= ma * mb
  {
    assert a * b <= ma * b;
    assert ma * b <= ma * mb;
  }

  /** From three digits on, a division can overflow: the largest answer and
      divisor give a dividend of at least 10^(digits+1). */
  lemma LargeDivisionsMayFail(settings: GameSettings, currentId: int)
    requires settings.digits >= 3 && settings.operations == [Div]
    ensures exists draws :: DrawsInRange(draws) && GenerateProblem(settings, currentId, draws).None?
  {
    var d := settings.digits;
    var top := Pow10(d - 1);
    assert top == 10 * Pow10(d - 2) && Pow10(d - 2) == 10 * Pow10(d - 3);
    RandomNumberCovers(d - 1, top - 1);
    var rq :| 0.0 <= rq < 1.0 && RandomNumber(d - 1, rq) == top - 1;
    RandomNumberCovers(d, 10 * top - 1);
    var rd :| 0.0 <= rd < 1.0 && RandomNumber(d, rd) == 10 * top - 1;
    var draws := Draws(0.0, 0.0, 0.0, rq, rd, 0.0);
    var (answer, divisor) := DivisionParts(d, draws);
    assert answer == top - 1 && divisor == 10 * top - 1;
    LargestDividend(top);
    assert Pow10(d + 1) == 100 * top;
    assert ChosenOperation(settings.operations, draws.operation) == Div;
    GenerateFailsOnlyOnLargeDividend(settings, currentId, draws);
  }

  /** The largest answer and divisor of a division with three or more digits
      multiply to at least 10^(digits+1), where top = 10^(digits-1). */
  lemma LargestDividend(top: int)
    requires top >= 100
    ensures (top - 1) * (10 * top - 1) >= 100 * top
  {
    var a := top - 100;
    assert (top - 1) * (10 * top - 1) == 10 * (top * top) - 11 * top + 1;
    assert top * top == top * a + 100 * top;
    assert top * a >= 0;
  }
}
