/** The request handler `classify_number` (index.py): validation of the
    `number` query parameter in a fixed order, then assembly of the response.
    The fun fact fetched from the trivia service is an input string here. */
module Handler {
  import opened Decimal
  import opened Classifier

  datatype Option<T> = None | Some(value: T)

  /** The JSON body: `{"error": ...}` on a rejected request, otherwise the
      classification record. */
  datatype Response =
    | Failure(error: string)
    | Success(number: nat, isPrime: bool, isPerfect: bool, properties: seq<string>,
              digitSum: nat, funFact: string)

  const MissingParameter := "Number parameter is required"
  const NotANumber := "Input must be a number"
  const NonPositive := "Number must be greater than zero"

  function Parity(n: int): (w: string)
    ensures w == "even" <==> n % 2 == 0
    ensures w == "odd" <==> n % 2 != 0
  {
    if n % 2 == 0 then "even" else "odd"
  }

  /** `classify_number()`: `number` is the query parameter (None when absent)
      and `funFact` stands for what `get_fun_fact` returned. */
  method ClassifyNumber(number: Option<string>, funFact: string) returns (resp: Response)
    // the checks, in the order the handler makes them
    ensures number.None? ==> resp == Failure(MissingParameter)
    ensures number.Some? && !IsDigitString(number.value) ==> resp == Failure(NotANumber)
    ensures number.Some? && IsDigitString(number.value) && ParseDecimal(number.value) == 0 ==>
              resp == Failure(NonPositive)
    ensures resp.Success? <==>
              number.Some? && IsDigitString(number.value) && ParseDecimal(number.value) > 0
    // the record
    ensures resp.Success? ==>
              && resp.number == ParseDecimal(number.value) > 0
              && resp.isPrime == IsPrimeNumber(resp.number)
              && resp.isPerfect == IsPerfect(resp.number)
              && resp.digitSum == DigitSum(resp.number)
              && resp.funFact == funFact
    // the properties list: an optional "armstrong" first, then the parity
    ensures resp.Success? ==>
              var props, n := resp.properties, resp.number;
              && |props| == (if IsArmstrong(n) then 2 else 1)
              && props[|props| - 1] == Parity(n)
              && ("armstrong" in props <==> IsArmstrong(n))
              && ("armstrong" in props ==> props[0] == "armstrong")
  {
    if number.None? {
      return Failure(MissingParameter);
    }
    var text := number.value;
    if !IsDigitString(text) {
      return Failure(NotANumber);
    }
    var n := ParseDecimal(text);
    if n <= 0 {
      return Failure(NonPositive);
    }

    var properties: seq<string> := [];
    if IsArmstrong(n) {
      properties := properties + ["armstrong"];
    }
    if n % 2 == 0 {
      properties := properties + ["even"];
    } else {
      properties := properties + ["odd"];
    }

    var prime := IsPrime(n);
    resp := Success(n, prime, IsPerfect(n), properties, DigitSum(n), funFact);
  }
}
