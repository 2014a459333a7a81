/** The variable table of NixLang (lang/nixlang.c:32-95, 195-214). */
module NixVariables {
  import opened Arithmetic
  import opened CIntegers
  import opened Decimal
  import opened Options

  const MAX_VARIABLES: nat := 64
  const MAX_VARIABLE_NAME: nat := 32
  const MAX_VARIABLE_VALUE: nat := 256

  datatype Variable = Variable(name: string, value: string, isNumber: bool, number: int)

  /** What fits in a field of `size` bytes with its terminating NUL */
  function Truncated(text: string, size: nat): string
    requires size > 0
  {
    if |text| < size then text else text[..size - 1]
  }

  /** Index of the first variable with this name from `i` on, the length of the table if there is none */
  function Find(table: seq<Variable>, name: string, i: nat): (found: nat)
    requires i <= |table|
    ensures i <= found <= |table| && (found < |table| ==> table[found].name == name)
    ensures forall j | i <= j < found :: table[j].name != name
    decreases |table| - i
  {
    if i == |table| || table[i].name == name then i else Find(table, name, i + 1)
  }

  /** The value that a program sees under a name */
  function Lookup(table: seq<Variable>, name: string): Option<Variable> {
    var i := Find(table, name, 0);
    if i == |table| then None else Some(table[i])
  }

  /** An optional minus sign and digits; both may be missing. */
  predicate Numeric(text: string) {
    AllDigits(if text != [] && text[0] == '-' then text[1..] else text)
  }

  function Assigned(variable: Variable, value: string): Variable {
    variable.(value := Truncated(value, MAX_VARIABLE_VALUE), isNumber := Numeric(value),
              number := if Numeric(value) then ToInt(value) else 0)
  }

  /** The table after a store: nothing changes if the variable is new and the table full. */
  function Stored(table: seq<Variable>, name: string, value: string): seq<Variable> {
    var i := Find(table, name, 0);
    if i < |table| then table[i := Assigned(table[i], value)]
    else if |table| < MAX_VARIABLES
    then table + [Assigned(Variable(Truncated(name, MAX_VARIABLE_NAME), "", false, 0), value)]
    else table
  }

  /** What `resolve_value` gives: the value of a variable of that name, or the token itself */
  function Resolved(table: seq<Variable>, token: string): string {
    match Lookup(table, token)
    case Some(variable) => variable.value
    case None => token
  }

  /** Every name in a table fits its field. */
  predicate Fits(table: seq<Variable>) {
    |table| <= MAX_VARIABLES && forall i | 0 <= i < |table| :: |table[i].name| < MAX_VARIABLE_NAME
  }

  // ---- Stores

  lemma FindIs(table: seq<Variable>, name: string, i: nat)
    requires i <= |table| && (forall j | 0 <= j < i :: table[j].name != name) && (i == |table| || table[i].name == name)
    ensures Find(table, name, 0) == i
  {
  }

  /** What a variable holds after a store: at most 255 characters of the text, and the number that it reads as if it is
  an optional minus sign and digits. */
  ghost predicate Holds(variable: Variable, value: string) {
    && variable.value == (if |value| < 256 then value else value[..255])
    && (variable.isNumber <==>
          forall i :: (if value != "" && value[0] == '-' then 1 else 0) <= i < |value| ==> '0' <= value[i] <= '9')
    && variable.number == if variable.isNumber then ToInt(value) else 0
  }

  lemma AssignedHolds(variable: Variable, value: string)
    ensures Holds(Assigned(variable, value), value)
  {
    var n := if value != "" && value[0] == '-' then 1 else 0;
    var digits := value[n..];
    assert digits == if n == 1 then value[1..] else value;
    if forall i :: n <= i < |value| ==> '0' <= value[i] <= '9' {
      assert AllDigits(digits);
    } else {
      var i :| n <= i < |value| && !('0' <= value[i] <= '9');
      assert digits[i - n] == value[i];
    }
  }

  /** A store is seen under its name exactly if there is a place for it under that name: the name is known, or it has
  at most 31 characters and fewer than 64 names are. It changes no other name than the one it is kept under. */
  lemma StoreIsSeen(table: seq<Variable>, name: string, value: string, other: string)
    requires Fits(table)
    ensures Fits(Stored(table, name, value))
    ensures other != Truncated(name, MAX_VARIABLE_NAME) ==>
              Lookup(Stored(table, name, value), other) == Lookup(table, other)
    ensures var seen := Lookup(Stored(table, name, value), name);
            if Lookup(table, name).None? && (|table| == 64 || |name| > 31) then seen.None?
            else
              && seen.Some? && seen.value == Assigned(seen.value, value) && seen.value.name == name
              && Holds(seen.value, value)
  {
    var table', i := Stored(table, name, value), Find(table, name, 0);
    if i < |table| {
      FindIs(table', name, i);
      if other != name { OtherFound(table, table', other); }
    } else if |table| < MAX_VARIABLES {
      if |name| < MAX_VARIABLE_NAME {
        FindIs(table', name, i);
      } else {
        FindIs(table', name, |table'|);
      }
      if other != Truncated(name, MAX_VARIABLE_NAME) { OtherFound(table, table', other); }
    }
    var seen := Lookup(table', name);
    if seen.Some? && seen.value == Assigned(seen.value, value) { AssignedHolds(seen.value, value); }
  }

  /** A table whose other entries are the same gives the same result for other names. */
  lemma OtherFound(table: seq<Variable>, table': seq<Variable>, other: string)
    requires |table| <= |table'|
    requires forall j | 0 <= j < |table| :: table'[j] == table[j] || (table'[j].name == table[j].name != other)
    requires forall j | |table| <= j < |table'| :: table'[j].name != other
    ensures Lookup(table', other) == Lookup(table, other)
  {
    var i := Find(table, other, 0);
    FindIs(table', other, if i < |table| then i else |table'|);
  }

  lemma StoredFits(table: seq<Variable>, name: string, value: string)
    requires Fits(table)
    ensures Fits(Stored(table, name, value))
  {
  }

  // ---- add and sub

  /** The change that `add` or `sub` asks for */
  function Delta(table: seq<Variable>, sub: bool, token: string): int {
    var delta := ToInt(Resolved(table, token));
    if sub then Wrap32(-delta) else delta
  }

  /** The variable as `add` and `sub` find it: a missing one is first stored as "0". */
  function Prepared(table: seq<Variable>, name: string): seq<Variable> {
    if Lookup(table, name).None? then Stored(table, name, "0") else table
  }

  /** The number before, 0 for a missing variable */
  function NumberOf(table: seq<Variable>, name: string): int {
    match Lookup(table, name)
    case Some(variable) => variable.number
    case None => 0
  }

  /** The table after `add` or `sub`, and the result code */
  function AfterAdd(table: seq<Variable>, sub: bool, name: string, token: string): (seq<Variable>, int) {
    var prepared := Prepared(table, name);
    if Lookup(prepared, name).None? then (prepared, -1)
    else (Stored(prepared, name, SumText(Lookup(prepared, name).value.number, Delta(table, sub, token))), 0)
  }

  function SumText(number: int, delta: int): string {
    Text(Wrap32(number + delta), 10)
  }

  lemma PreparedIsSeen(table: seq<Variable>, name: string, other: string)
    requires Fits(table)
    ensures Fits(Prepared(table, name))
    ensures other != Truncated(name, MAX_VARIABLE_NAME) ==> Lookup(Prepared(table, name), other) == Lookup(table, other)
    ensures var seen := Lookup(Prepared(table, name), name);
            if Lookup(table, name).None? && (|table| == 64 || |name| > 31) then seen.None?
            else seen.Some? && seen.value.number == NumberOf(table, name)
  {
    StoreIsSeen(table, name, "0", other);
    ZeroIsNumeric();
  }

  lemma ZeroIsNumeric()
    ensures Numeric("0") && ToInt("0") == 0
  {
    assert "0"[1..] == "";
    assert Scan("0", 0) == Scan("", 0);
  }

  /** The text of an `int` is numeric exactly if it is not the least one, and short. */
  lemma TextIsNumeric(value: int)
    requires InInt32(value)
    ensures Numeric(Text(value, 10)) <==> value != INT_MIN
  {
    if value >= 0 {
      ScanDigits(value);
    } else if value == INT_MIN {
      LeastIsNotRead();
    } else {
      ScanDigits(-value);
      assert ("-" + Digits(-value, 10))[1..] == Digits(-value, 10);
    }
  }

  /** `add` and `sub` fail exactly for a new variable that the table has no room for or whose name does not fit. When
  they succeed the variable's number is the old one, 0 if there was none, plus or minus the operand, and its text reads
  as that number, exactly if the result is not the least `int`. The operand is read from the text of the variable that
  the token names, or from the token. */
  lemma AddIsRight(table: seq<Variable>, sub: bool, name: string, token: string, number: int, operand: int)
    requires Fits(table)
    requires number == match Lookup(table, name) case Some(variable) => variable.number case None => 0
    requires operand == ToInt(match Lookup(table, token) case Some(variable) => variable.value case None => token)
    ensures var (table', code) := AfterAdd(table, sub, name, token);
            && (code == -1 <==> Lookup(table, name).None? && (|table| == 64 || |name| > 31))
            && (code == -1 || code == 0)
            && (code == 0 ==>
                  && Lookup(table', name).Some?
                  && Shows(Lookup(table', name).value, Wrap32(if sub then number - operand else number + operand)))
  {
    PreparedIsSeen(table, name, name);
    if AfterAdd(table, sub, name, token).1 == 0 {
      var variable, sum := AddStores(table, sub, name, token, number);
      SumIs(table, sub, token, number, operand);
      AssignedSum(variable, sum);
    }
  }

  lemma AddStores(table: seq<Variable>, sub: bool, name: string, token: string, number: int)
    returns (variable: Variable, sum: int)
    requires Fits(table) && AfterAdd(table, sub, name, token).1 == 0 && number == NumberOf(table, name)
    ensures Lookup(AfterAdd(table, sub, name, token).0, name) == Some(variable)
    ensures sum == Wrap32(number + Delta(table, sub, token)) && variable == Assigned(variable, Text(sum, 10))
  {
    PreparedIsSeen(table, name, name);
    var prepared, text := Prepared(table, name), SumText(number, Delta(table, sub, token));
    StoreIsSeen(prepared, name, text, name);
    variable := Lookup(Stored(prepared, name, text), name).value;
    sum := Wrap32(number + Delta(table, sub, token));
  }

  lemma SumIs(table: seq<Variable>, sub: bool, token: string, number: int, operand: int)
    requires operand == ToInt(Resolved(table, token))
    ensures Wrap32(number + Delta(table, sub, token)) == Wrap32(if sub then number - operand else number + operand)
  {
    if sub {
      assert number + -operand == number - operand;
      WrapSum(number, -operand);
    }
  }

  /** The variable is a number, and its number and its text both say `sum`, exactly if that is not the least `int`. */
  predicate Shows(variable: Variable, sum: int) {
    variable.isNumber && variable.number == sum == ToInt(variable.value) <==> sum != INT_MIN
  }

  lemma AssignedSum(variable: Variable, sum: int)
    requires InInt32(sum) && variable == Assigned(variable, Text(sum, 10))
    ensures Shows(variable, sum)
  {
    TextIsNumeric(sum);
    RoundTrip(sum);
    TextIsShort(sum);
  }

  /** `add` and `sub` change no name but the one the variable is kept under, whether they succeed or not. */
  lemma AddKeepsOthers(table: seq<Variable>, sub: bool, name: string, token: string, other: string)
    requires Fits(table)
    ensures var table' := AfterAdd(table, sub, name, token).0;
            && Fits(table')
            && (other != Truncated(name, MAX_VARIABLE_NAME) ==> Lookup(table', other) == Lookup(table, other))
  {
    PreparedIsSeen(table, name, other);
    var prepared := Prepared(table, name);
    if Lookup(prepared, name).Some? {
      StoreIsSeen(prepared, name, SumText(Lookup(prepared, name).value.number, Delta(table, sub, token)), other);
    }
  }

  lemma TextIsShort(value: int)
    requires InInt32(value)
    ensures |Text(value, 10)| < 32
  {
    DigitsLength(if value < 0 then Wrap32(-value) else value, 10);
  }

  /** A number below 10^n in absolute value has at most n digits. */
  lemma {:induction false} DigitsLength(value: int, n: nat)
    requires n > 0 && Abs(value) < Power10(n)
    ensures |Digits(value, 10)| <= n
    decreases n
  {
    var rest := CDiv(value, 10);
    if rest != 0 { DigitsLength(rest, n - 1); }
  }

  function Power10(n: nat): nat {
    if n == 0 then 1 else 10 * Power10(n - 1)
  }
}
