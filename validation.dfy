/** The request validation layer both route files use: the string view the validators
    work on, the `trim` sanitizer, validation chains run in declaration order, and
    `formatValidationErrors`, which turns the validator's errors into `{field, message}` pairs. */
module Validation {
  import opened Http

  // ---------------------------------------------------------------------------
  // The string view of a field value
  // ---------------------------------------------------------------------------

  function Digit(d: nat): char
    requires d < 10
  {
    "0123456789"[d]
  }

  /** Decimal digits of a natural number, most significant first. */
  function NatText(n: nat): (r: string)
    ensures |r| >= 1
    ensures forall i :: 0 <= i < |r| ==> '0' <= r[i] <= '9'
  {
    if n < 10 then [Digit(n)] else NatText(n / 10) + [Digit(n % 10)]
  }

  function IntText(n: int): string {
    if n < 0 then "-" + NatText(-n) else NatText(n)
  }

  /** The string a standard validator or sanitizer sees for a field: a missing field and
      `null` read as the empty string, booleans as `true` and `false`, and an integer as
      its full decimal spelling (JavaScript's spelling for integers below 10^21 that a
      double holds exactly). */
  function Text(v: Option<Json>): string {
    match v
    case None => ""
    case Some(JNull) => ""
    case Some(JBool(b)) => if b then "true" else "false"
    case Some(JNum(n)) => IntText(n)
    case Some(JStr(s)) => s
  }

  /** The same view of a field that only ever holds a string. */
  function TextOf(v: Option<string>): string {
    if v.Some? then v.value else ""
  }

  /** `isString()`: the raw value is a string (a missing field is not). */
  predicate IsString(v: Option<Json>) {
    v.Some? && v.value.JStr?
  }

  /** `isBoolean()`: the string view is one of the four accepted spellings. */
  predicate IsBooleanText(s: string) {
    s == "true" || s == "false" || s == "1" || s == "0"
  }

  // ---------------------------------------------------------------------------
  // The trim sanitizer
  // ---------------------------------------------------------------------------

  /** The characters of the JavaScript `\s` class. */
  predicate IsSpace(c: char) {
    var n := c as int;
    n == 0x20 || (0x09 <= n <= 0x0D) || n == 0xA0 || n == 0x1680 || (0x2000 <= n <= 0x200A)
    || n == 0x2028 || n == 0x2029 || n == 0x202F || n == 0x205F || n == 0x3000 || n == 0xFEFF
  }

  /** Drops leading white space. */
  function TrimStart(s: string): string {
    if s != [] && IsSpace(s[0]) then TrimStart(s[1..]) else s
  }

  /** Drops trailing white space. */
  function TrimEnd(s: string): string {
    if s != [] && IsSpace(s[|s| - 1]) then TrimEnd(s[..|s| - 1]) else s
  }

  /** What `TrimStart` leaves is a suffix of `s` that does not start with white space, and
      everything it dropped was white space. */
  lemma {:induction false} TrimStartShape(s: string)
    ensures |TrimStart(s)| <= |s| && TrimStart(s) == s[|s| - |TrimStart(s)|..]
    ensures forall k :: 0 <= k < |s| - |TrimStart(s)| ==> IsSpace(s[k])
    ensures TrimStart(s) == [] || !IsSpace(TrimStart(s)[0])
  {
    if s != [] && IsSpace(s[0]) {
      TrimStartShape(s[1..]);
      forall k | 0 <= k < |s| - |TrimStart(s)| ensures IsSpace(s[k]) {
        if k > 0 { assert s[k] == s[1..][k - 1]; }
      }
    }
  }

  /** What `TrimEnd` leaves is a prefix of `s` that does not end with white space, and
      everything it dropped was white space. */
  lemma {:induction false} TrimEndShape(s: string)
    ensures |TrimEnd(s)| <= |s| && TrimEnd(s) == s[..|TrimEnd(s)|]
    ensures forall k :: |TrimEnd(s)| <= k < |s| ==> IsSpace(s[k])
    ensures TrimEnd(s) == [] || !IsSpace(TrimEnd(s)[|TrimEnd(s)| - 1])
  {
    if s != [] && IsSpace(s[|s| - 1]) {
      TrimEndShape(s[..|s| - 1]);
      forall k | |TrimEnd(s)| <= k < |s| ensures IsSpace(s[k]) {
        if k < |s| - 1 { assert s[k] == s[..|s| - 1][k]; }
      }
    }
  }

  /** `r` occurs in `s` at position `i`. */
  predicate SliceAt(s: string, i: int, r: string) {
    0 <= i <= |s| - |r| && s[i..i + |r|] == r
  }

  /** The `trim()` sanitizer: white space dropped at both ends. */
  function Trim(s: string): string {
    TrimEnd(TrimStart(s))
  }

  /** What `trim()` promises: its result is the slice of `s` left once the white space
      before and after it is dropped, it has no white space at either end, and it is empty
      exactly when `s` is all white space. */
  lemma TrimShape(s: string)
    ensures exists i :: SliceAt(s, i, Trim(s)) && (forall k :: 0 <= k < i ==> IsSpace(s[k]))
                        && (forall k :: i + |Trim(s)| <= k < |s| ==> IsSpace(s[k]))
    ensures Trim(s) != [] ==> !IsSpace(Trim(s)[0]) && !IsSpace(Trim(s)[|Trim(s)| - 1])
    ensures Trim(s) == [] <==> forall k :: 0 <= k < |s| ==> IsSpace(s[k])
  {
    var front := TrimStart(s);
    var r := TrimEnd(front);
    TrimStartShape(s);
    TrimEndShape(front);
    assert r == Trim(s);
    var i := |s| - |front|;
    assert SliceAt(s, i, Trim(s));
    forall k | i + |r| <= k < |s| ensures IsSpace(s[k]) {
      assert s[k] == front[k - i];
    }
    if r != [] {
      assert s[|s| - |front|] == front[0] == r[0];
    } else {
      assert front == [];
    }
  }

  /** A string with no white space at either end is left as it is. */
  lemma TrimKeepsTrimmed(s: string)
    requires s != [] ==> !IsSpace(s[0]) && !IsSpace(s[|s| - 1])
    ensures Trim(s) == s
  {
    assert TrimStart(s) == s;
  }

  // ---------------------------------------------------------------------------
  // Validation chains
  // ---------------------------------------------------------------------------

  /** One validator of a chain applied to the field: whether the field passed it, and the
      message it reports when it did not. */
  datatype Check = Check(passes: bool, message: string)

  /** A chain `body(field)...`: the field it inspects and its validators in order. */
  datatype Chain = Chain(field: string, checks: seq<Check>)

  /** How many of a field's failures the validation result reports. Whether one field yields
      several messages is the validation library's behaviour, so both readings are kept. */
  datatype ErrorPolicy = EveryFailure | FirstFailurePerField

  /** An entry of the validation result: `e.param` is the field, `e.msg` the message. */
  datatype ValidatorError = ValidatorError(param: string, msg: string)

  /** The message of a validator that was given no `withMessage`. */
  const DefaultMessage := "Invalid value"

  /** `optional()`: a field the client left out is not checked at all. */
  function Optional(v: Option<Json>, checks: seq<Check>): seq<Check> {
    if v.None? then [] else checks
  }

  predicate AnyFails(checks: seq<Check>) {
    exists i :: 0 <= i < |checks| && !checks[i].passes
  }

  predicate AllPass(chains: seq<Chain>) {
    forall k :: 0 <= k < |chains| ==> !AnyFails(chains[k].checks)
  }

  /** The messages of the failing validators of one chain, in chain order; there are none
      exactly when every validator passes. */
  function Failures(checks: seq<Check>): (r: seq<string>)
    ensures r == [] <==> !AnyFails(checks)
  {
    if checks == [] then []
    else
      assert AnyFails(checks) <==> !checks[0].passes || AnyFails(checks[1..]) by {
        if AnyFails(checks[1..]) {
          var i :| 0 <= i < |checks[1..]| && !checks[1..][i].passes;
          assert checks[i + 1] == checks[1..][i];
        }
      }
      (if checks[0].passes then [] else [checks[0].message]) + Failures(checks[1..])
  }

  /** Every reported message is the message of a failing validator, and there are no more
      messages than validators. */
  lemma {:induction false} FailuresFromFailing(checks: seq<Check>)
    ensures |Failures(checks)| <= |checks|
    ensures forall j :: 0 <= j < |Failures(checks)| ==>
      exists i :: 0 <= i < |checks| && !checks[i].passes && checks[i].message == Failures(checks)[j]
  {
    if checks != [] {
      var rest := Failures(checks[1..]);
      FailuresFromFailing(checks[1..]);
      var head := if checks[0].passes then [] else [checks[0].message];
      assert Failures(checks) == head + rest;
      forall j | 0 <= j < |Failures(checks)|
        ensures exists i :: 0 <= i < |checks| && !checks[i].passes && checks[i].message == Failures(checks)[j]
      {
        if j < |head| {
          assert !checks[0].passes && checks[0].message == Failures(checks)[j];
        } else {
          var i :| 0 <= i < |checks[1..]| && !checks[1..][i].passes && checks[1..][i].message == rest[j - |head|];
          assert checks[i + 1] == checks[1..][i];
        }
      }
    }
  }

  /** A single validator contributes its message exactly when it fails. */
  lemma FailuresOne(c: Check)
    ensures Failures([c]) == if c.passes then [] else [c.message]
  {
    assert [c][1..] == [];
  }

  /** The messages of a chain are those of its first validators followed by those of the
      rest: every failing validator's message appears once, in chain order. */
  lemma {:induction false} FailuresAppend(a: seq<Check>, b: seq<Check>)
    ensures Failures(a + b) == Failures(a) + Failures(b)
  {
    if a == [] {
      assert a + b == b;
    } else {
      assert (a + b)[1..] == a[1..] + b;
      assert (a + b)[0] == a[0];
      FailuresAppend(a[1..], b);
    }
  }

  function Tag(field: string, msgs: seq<string>): seq<ValidatorError> {
    seq(|msgs|, i requires 0 <= i < |msgs| => ValidatorError(field, msgs[i]))
  }

  /** The errors one chain contributes: all its failures, or only the first one. Every entry
      is tagged with the chain's field and carries one of its failure messages. */
  function ChainErrors(c: Chain, policy: ErrorPolicy): (r: seq<ValidatorError>)
    ensures r == [] <==> !AnyFails(c.checks)
    ensures forall e :: e in r ==> e.param == c.field && e.msg in Failures(c.checks)
    ensures policy == EveryFailure ==> |r| == |Failures(c.checks)|
    ensures policy == FirstFailurePerField ==> |r| <= 1
  {
    var ms := Failures(c.checks);
    Tag(c.field, if policy == FirstFailurePerField && ms != [] then ms[..1] else ms)
  }

  /** The errors of one chain are its failure messages in chain order, all of them or only
      the first one. */
  lemma ChainErrorsInOrder(c: Chain, policy: ErrorPolicy)
    ensures policy == EveryFailure ==>
              forall i :: 0 <= i < |ChainErrors(c, policy)| ==> ChainErrors(c, policy)[i].msg == Failures(c.checks)[i]
    ensures policy == FirstFailurePerField && ChainErrors(c, policy) != [] ==>
              ChainErrors(c, policy)[0].msg == Failures(c.checks)[0]
  {
  }

  /** `validationResult(req).array()`: the errors of every chain, chain after chain. It is
      empty exactly when every validator of every chain passed. */
  function RunChains(chains: seq<Chain>, policy: ErrorPolicy): (r: seq<ValidatorError>)
    ensures r == [] <==> AllPass(chains)
  {
    if chains == [] then []
    else
      var rest := RunChains(chains[1..], policy);
      assert AllPass(chains) <==> !AnyFails(chains[0].checks) && AllPass(chains[1..]) by {
        if !AnyFails(chains[0].checks) && AllPass(chains[1..]) {
          forall k | 0 <= k < |chains| ensures !AnyFails(chains[k].checks) {
            if k > 0 { assert chains[k] == chains[1..][k - 1]; }
          }
        }
      }
      ChainErrors(chains[0], policy) + rest
  }

  /** The errors of chains declared one after another are the errors of the first chains
      followed by those of the rest, so errors come chain after chain in declaration order. */
  lemma {:induction false} RunChainsAppend(a: seq<Chain>, b: seq<Chain>, policy: ErrorPolicy)
    ensures RunChains(a + b, policy) == RunChains(a, policy) + RunChains(b, policy)
  {
    if a == [] {
      assert a + b == b;
    } else {
      assert (a + b)[1..] == a[1..] + b;
      assert (a + b)[0] == a[0];
      RunChainsAppend(a[1..], b, policy);
    }
  }

  /** Every reported error names a chain whose field failed, with one of that chain's messages. */
  lemma {:induction false} RunChainsSound(chains: seq<Chain>, policy: ErrorPolicy, e: ValidatorError)
    requires e in RunChains(chains, policy)
    ensures exists k :: 0 <= k < |chains| && chains[k].field == e.param
                        && AnyFails(chains[k].checks) && e.msg in Failures(chains[k].checks)
  {
    if e in ChainErrors(chains[0], policy) {
      assert e.msg in Failures(chains[0].checks);
    } else {
      RunChainsSound(chains[1..], policy, e);
      var k :| 0 <= k < |chains[1..]| && chains[1..][k].field == e.param
               && AnyFails(chains[1..][k].checks) && e.msg in Failures(chains[1..][k].checks);
      assert chains[k + 1] == chains[1..][k];
    }
  }

  /** A field whose chains all pass is never named in the result. */
  lemma PassingFieldNotReported(chains: seq<Chain>, policy: ErrorPolicy, field: string)
    requires forall k :: 0 <= k < |chains| && chains[k].field == field ==> !AnyFails(chains[k].checks)
    ensures forall e :: e in RunChains(chains, policy) ==> e.param != field
  {
    forall e | e in RunChains(chains, policy) ensures e.param != field {
      RunChainsSound(chains, policy, e);
    }
  }

  /** Every chain with a failing validator is reported under its field, whatever the policy. */
  lemma {:induction false} RunChainsComplete(chains: seq<Chain>, policy: ErrorPolicy, k: nat)
    requires k < |chains| && AnyFails(chains[k].checks)
    ensures exists e :: e in RunChains(chains, policy) && e.param == chains[k].field
  {
    if k == 0 {
      var errs := ChainErrors(chains[0], policy);
      assert errs[0] in RunChains(chains, policy);
    } else {
      assert chains[1..][k - 1] == chains[k];
      RunChainsComplete(chains[1..], policy, k - 1);
      var e :| e in RunChains(chains[1..], policy) && e.param == chains[k].field;
      assert e in RunChains(chains, policy);
    }
  }

  // ---------------------------------------------------------------------------
  // formatValidationErrors
  // ---------------------------------------------------------------------------

  /** `formatValidationErrors`: each validator error becomes `{field: param, message: msg}`,
      keeping the number of errors and their order. */
  function FormatValidationErrors(errors: seq<ValidatorError>): (r: seq<FieldError>)
    ensures |r| == |errors|
    ensures forall i :: 0 <= i < |r| ==> r[i].field == errors[i].param && r[i].message == errors[i].msg
  {
    if errors == [] then []
    else [FieldError(errors[0].param, errors[0].msg)] + FormatValidationErrors(errors[1..])
  }

  /** Formatting loses nothing: two error lists that format alike are the same list. */
  lemma FormatValidationErrorsInjective(a: seq<ValidatorError>, b: seq<ValidatorError>)
    requires FormatValidationErrors(a) == FormatValidationErrors(b)
    ensures a == b
  {
    var fa, fb := FormatValidationErrors(a), FormatValidationErrors(b);
    assert |a| == |b|;
    forall i | 0 <= i < |a| ensures a[i] == b[i] {
      assert fa[i] == fb[i];
    }
  }

  /** Formatting the errors of several chains is formatting each chain's errors in turn. */
  lemma {:induction false} FormatValidationErrorsAppend(a: seq<ValidatorError>, b: seq<ValidatorError>)
    ensures FormatValidationErrors(a + b) == FormatValidationErrors(a) + FormatValidationErrors(b)
  {
    if a != [] {
      assert (a + b)[1..] == a[1..] + b;
      FormatValidationErrorsAppend(a[1..], b);
    }
  }
}
