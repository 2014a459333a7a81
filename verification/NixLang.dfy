/** NixLang's variable store and its `add` and `sub` lines (lang/nixlang.c:32-95, 195-214). */
module NixLang {
  import opened Arithmetic
  import opened CIntegers
  import opened Decimal
  import opened Options
  import opened NixVariables

  class Interpreter {
    const variables: array<Variable>
    var variableCount: nat

    ghost predicate Valid()
      reads this, variables
    {
      variables.Length == MAX_VARIABLES && variableCount <= MAX_VARIABLES && Fits(variables[..variableCount])
    }

    function Table(): seq<Variable>
      requires variableCount <= variables.Length
      reads this, variables
    {
      variables[..variableCount]
    }

    /** `nixlang_init` */
    constructor ()
      ensures Valid() && Table() == []
    {
      variables := new Variable[MAX_VARIABLES](i => Variable("", "", false, 0));
      variableCount := 0;
    }

    /** `nixlang_find_variable`, -1 for a null pointer */
    method FindVariable(name: string) returns (i: int)
      requires Valid()
      ensures if Find(Table(), name, 0) == variableCount then i == -1 else i == Find(Table(), name, 0)
    {
      i := 0;
      while i < variableCount
        invariant 0 <= i <= variableCount && Find(Table(), name, 0) == Find(Table(), name, i)
      {
        if variables[i].name == name { return; }
        i := i + 1;
      }
      i := -1;
    }

    /** `nixlang_resolve_value` */
    method ResolveValue(token: string) returns (value: string)
      requires Valid()
      ensures value == Resolved(Table(), token)
    {
      var i := FindVariable(token);
      value := if i >= 0 then variables[i].value else token;
    }

    /** The test that ends `nixlang_store_variable` */
    method IsNumber(value: string) returns (isNumber: bool)
      ensures isNumber == Numeric(value)
    {
      var p := if |value| > 0 && value[0] == '-' then 1 else 0;
      ghost var digits := if p == 1 then value[1..] else value;
      ghost var start := p;
      while p < |value|
        invariant start <= p <= |value| && forall i | start <= i < p :: '0' <= value[i] <= '9'
      {
        if value[p] < '0' || value[p] > '9' {
          assert digits[p - start] == value[p];
          return false;
        }
        p := p + 1;
      }
      assert forall i | 0 <= i < |digits| :: digits[i] == value[start + i];
      isNumber := true;
    }

    /** `nixlang_store_variable` */
    method StoreVariable(name: string, value: string)
      requires Valid()
      modifies `variableCount, variables
      ensures Valid() && Table() == Stored(old(Table()), name, value)
    {
      StoredFits(Table(), name, value);
      var i := FindVariable(name);
      if i == -1 && variableCount < MAX_VARIABLES {
        i := variableCount;
        variables[i] := Variable(Truncated(name, MAX_VARIABLE_NAME), "", false, 0);
        variableCount := variableCount + 1;
      }
      if i == -1 { return; }
      Assign(i, value);
    }

    method Assign(i: nat, value: string)
      requires i < variables.Length
      modifies variables
      ensures variables[..] == old(variables[..])[i := Assigned(old(variables[i]), value)]
    {
      var isNumber := IsNumber(value);
      var number := 0;
      if isNumber { number := NixlangToInt(value); }
      variables[i] :=
        variables[i].(value := Truncated(value, MAX_VARIABLE_VALUE), isNumber := isNumber, number := number);
    }

    /** The `add` and `sub` cases of `nixlang_execute_line` */
    method AddOrSub(sub: bool, name: string, token: string) returns (code: int)
      requires Valid()
      modifies `variableCount, variables
      ensures Valid() && Table() == AfterAdd(old(Table()), sub, name, token).0
      ensures code == AfterAdd(old(Table()), sub, name, token).1
    {
      ghost var table := Table();
      PreparedIsSeen(table, name, name);
      var i := FindVariable(name);
      var operand := ResolveValue(token);
      var delta := NixlangToInt(operand);
      if i == -1 {
        StoreVariable(name, "0");
        i := FindVariable(name);
      }
      ghost var prepared := Table();
      assert prepared == Prepared(table, name);
      if i == -1 { return -1; }
      assert Lookup(prepared, name) == Some(variables[i]);
      if sub { delta := Wrap32(-delta); }
      ghost var number := Lookup(prepared, name).value.number;
      assert variables[i].number == number && delta == Delta(table, sub, token);
      var text := PrintSum(variables[i].number, delta);
      StoreVariable(name, text);
      code := 0;
    }
  }

  /** `sprintf(value, "%d", number + delta)` into a 32-byte buffer */
  method PrintSum(number: int, delta: int) returns (text: string)
    ensures text == SumText(number, delta)
  {
    var n, value := Wrap32(number + delta), new char[32];
    TextIsShort(n);
    Itoa(n, value, 10);
    TextHasNoNul(n);
    text := ToString(value, Text(n, 10));
  }

  /** The string in a buffer */
  method ToString(value: array<char>, ghost expected: string) returns (text: string)
    requires |expected| < value.Length && value[..|expected|] == expected && value[|expected|] == '\0'
    requires forall i | 0 <= i < |expected| :: expected[i] != '\0'
    ensures text == expected
  {
    assert forall i | 0 <= i < |expected| :: value[i] == value[..|expected|][i] != '\0';
    var length := 0;
    while value[length] != '\0'
      invariant length <= |expected|
      decreases |expected| - length
    {
      length := length + 1;
    }
    text := value[..length];
  }

  lemma TextHasNoNul(n: int)
    requires InInt32(n)
    ensures forall i | 0 <= i < |Text(n, 10)| :: Text(n, 10)[i] != '\0'
  {
    DigitsHaveNoNul(if n < 0 then Wrap32(-n) else n);
  }

  lemma {:induction false} DigitsHaveNoNul(n: int)
    ensures forall i | 0 <= i < |Digits(n, 10)| :: Digits(n, 10)[i] != '\0'
    decreases Abs(n)
  {
    if CDiv(n, 10) != 0 { DigitsHaveNoNul(CDiv(n, 10)); }
  }
}
