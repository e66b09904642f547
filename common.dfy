/** Shared vocabulary: optional values, results, the error kinds the services
    raise, blank-string detection, the int.MaxValue sentinel and the decimal
    rendering of cell ids. */
module Common {

  datatype Option<+T> = None | Some(value: T)

  /** Every user-visible failure of the two services, one constructor per
      exception kind they raise. */
  datatype Error =
    | ValidationFailed(field: string)  // the request validator's aggregated failure
    | BlankId(position: nat)           // a node id that is null, empty or white space
    | BlankCellId(position: nat)       // a maze cell id that is null, empty or white space
    | DuplicateNodeId(id: string)
    | DuplicateNeighborId(id: string)
    | UnmatchingEdgeCosts
    | NotFound(id: string)             // an id missing from the node collection
    | KeyNotFound(id: string)          // a dictionary lookup of an undeclared node id
    | OutOfRange(field: string)
    | InvalidDimensions
    | DuplicateCellId(id: string)
    | NullValue(field: string)

  datatype Result<+T> = Ok(value: T) | Failure(error: Error) {
    predicate IsFailure() { Failure? }
    function PropagateFailure<U>(): Result<U>
      requires Failure?
    {
      Failure(error)
    }
    function Extract(): T
      requires Ok?
    {
      value
    }
  }

  datatype Outcome = Pass | Fail(error: Error)

  /** int.MaxValue, the cost the engine writes for "not reached yet". */
  const INF: int := 0x7FFF_FFFF

  /** char.IsWhiteSpace: the control characters U+0009 to U+000D and U+0085,
      the space separators (U+0020, U+00A0, U+1680, U+2000 to U+200A,
      U+202F, U+205F, U+3000), the line separator U+2028 and the paragraph
      separator U+2029. */
  predicate IsWhiteSpace(c: char)
  {
    || '\U{0009}' <= c <= '\U{000D}'
    || c == '\U{0020}' || c == '\U{0085}' || c == '\U{00A0}' || c == '\U{1680}'
    || '\U{2000}' <= c <= '\U{200A}'
    || c == '\U{2028}' || c == '\U{2029}' || c == '\U{202F}' || c == '\U{205F}' || c == '\U{3000}'
  }

  /** string.IsNullOrWhiteSpace for a non-null string. */
  predicate IsBlank(s: string)
  {
    forall i :: 0 <= i < |s| ==> IsWhiteSpace(s[i])
  }

  function DigitChar(d: nat): (c: char)
    requires d < 10
    ensures '0' <= c <= '9'
  {
    ['0', '1', '2', '3', '4', '5', '6', '7', '8', '9'][d]
  }

  /** Int32.ToString() for a non-negative value: its decimal digits. */
  function NatToString(n: nat): (s: string)
    ensures |s| >= 1
    ensures forall i :: 0 <= i < |s| ==> '0' <= s[i] <= '9'
    ensures s[|s| - 1] == DigitChar(n % 10)
    ensures n < 10 <==> |s| == 1
    decreases n
  {
    if n < 10 then [DigitChar(n)] else NatToString(n / 10) + [DigitChar(n % 10)]
  }

  lemma DigitCharInjective(a: nat, b: nat)
    requires a < 10 && b < 10 && DigitChar(a) == DigitChar(b)
    ensures a == b
  {
  }

  /** Distinct numbers render as distinct strings. */
  lemma {:induction false} NatToStringInjective(a: nat, b: nat)
    requires NatToString(a) == NatToString(b)
    ensures a == b
    decreases a
  {
    var s := NatToString(a);
    DigitCharInjective(a % 10, b % 10);
    if a >= 10 && b >= 10 {
      assert NatToString(a / 10) == s[..|s| - 1] == NatToString(b / 10);
      NatToStringInjective(a / 10, b / 10);
    }
  }

  /** A decimal rendering is never blank. */
  lemma NatToStringNotBlank(n: nat)
    ensures !IsBlank(NatToString(n))
  {
    var s := NatToString(n);
    assert !IsWhiteSpace(s[0]);
  }

  /** The sequence read backwards. */
  function Reversed<T>(s: seq<T>): (r: seq<T>)
    ensures |r| == |s| && forall i :: 0 <= i < |s| ==> r[i] == s[|s| - 1 - i]
  {
    if s == [] then [] else Reversed(s[1..]) + [s[0]]
  }

  lemma SubsetCard<T>(a: set<T>, b: set<T>)
    requires a <= b
    ensures |a| <= |b|
  {
    if a != {} {
      var x :| x in a;
      SubsetCard(a - {x}, b - {x});
    }
  }
}
