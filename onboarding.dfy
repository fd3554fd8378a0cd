/**
 * The five-step onboarding wizard of onboarding-flow.tsx: the current step,
 * the completion flag and the record of answers, the four event handlers
 * that change them, the per-step validity check (with its e-mail pattern)
 * and the progress bar's percentage. The rendering is not modelled.
 */
module Onboarding {

  /** The characters that JavaScript's `String.prototype.trim` removes and
      that the regular-expression class `\s` matches: the white space and
      line terminator characters of ECMAScript. */
  predicate IsSpace(c: char)
  {
    var n := c as int;
    (9 <= n <= 13) || n == 0x20 || n == 0xA0 || n == 0x1680 ||
    (0x2000 <= n <= 0x200A) || n == 0x2028 || n == 0x2029 || n == 0x202F ||
    n == 0x205F || n == 0x3000 || n == 0xFEFF
  }

  predicate Blank(s: string)
  {
    forall i :: 0 <= i < |s| ==> IsSpace(s[i])
  }

  /** Removes leading white space. */
  function TrimStart(s: string): (t: string)
    ensures |t| <= |s| && t == s[|s| - |t|..]
    ensures t == [] || !IsSpace(t[0])
    ensures Blank(s[..|s| - |t|])
  {
    if s == [] || !IsSpace(s[0]) then s
    else
      var t := TrimStart(s[1..]);
      assert s[1..][..|s[1..]| - |t|] == s[1..|s| - |t|];
      t
  }

  /** Removes trailing white space. */
  function TrimEnd(s: string): (t: string)
    ensures |t| <= |s| && t == s[..|t|]
    ensures t == [] || !IsSpace(t[|t| - 1])
    ensures Blank(s[|t|..])
  {
    if s == [] || !IsSpace(s[|s| - 1]) then s
    else
      var t := TrimEnd(s[..|s| - 1]);
      assert s[..|s| - 1][|t|..] == s[|t|..|s| - 1];
      t
  }

  /** `s.trim()`. */
  function Trim(s: string): string
  {
    TrimEnd(TrimStart(s))
  }

  /** A string trims to the empty string exactly when it is all white
      space. */
  lemma TrimEmpty(s: string)
    ensures Trim(s) == "" <==> Blank(s)
  {
  }

  /** The trimmed string has no white space at either end, so trimming
      again changes nothing. */
  lemma TrimIdempotent(s: string)
    ensures Trim(Trim(s)) == Trim(s)
  {
  }

  /** A character of the class `[^\s@]`. */
  predicate Plain(c: char)
  {
    !IsSpace(c) && c != '@'
  }

  predicate AllPlain(s: string)
  {
    forall i :: 0 <= i < |s| ==> Plain(s[i])
  }

  /** What `/^[^\s@]+@[^\s@]+\.[^\s@]+$/` matches: a non-empty local part,
      an '@', a non-empty domain part, a '.', and a non-empty last part,
      none of which holds white space or an '@'. */
  ghost predicate EmailShape(s: string)
  {
    exists a, d :: 0 < a && a + 1 < d && d + 1 < |s| && s[a] == '@' && s[d] == '.' &&
                   AllPlain(s[..a]) && AllPlain(s[a + 1..d]) && AllPlain(s[d + 1..])
  }

  /** The index of the first c in s, or |s| when there is none. */
  function IndexOf(s: string, c: char): (i: nat)
    ensures i <= |s|
    ensures i < |s| ==> s[i] == c
    ensures forall j :: 0 <= j < i ==> s[j] != c
  {
    if s == [] then 0
    else if s[0] == c then 0
    else 1 + IndexOf(s[1..], c)
  }

  /** The e-mail check as a scan: no white space, exactly one '@' with
      something before it, and a '.' that has at least one character between
      it and the '@' and at least one after it. */
  function EmailValid(s: string): bool
  {
    var a := IndexOf(s, '@');
    (forall i :: 0 <= i < |s| ==> !IsSpace(s[i])) &&
    0 < a < |s| && '@' !in s[a + 1..] &&
    exists d :: a + 1 < d < |s| - 1 && s[d] == '.'
  }

  /** The scan accepts exactly the strings the pattern matches. */
  lemma EmailValidShape(s: string)
    ensures EmailValid(s) <==> EmailShape(s)
  {
    var a := IndexOf(s, '@');
    if EmailValid(s) {
      var d :| a + 1 < d < |s| - 1 && s[d] == '.';
      forall i | a + 1 <= i < |s| ensures s[i] != '@' {
        assert s[i] == s[a + 1..][i - (a + 1)];
      }
      assert AllPlain(s[..a]);
      assert AllPlain(s[a + 1..d]);
      assert AllPlain(s[d + 1..]);
    }
    if EmailShape(s) {
      var a', d :| 0 < a' && a' + 1 < d && d + 1 < |s| && s[a'] == '@' && s[d] == '.' &&
                   AllPlain(s[..a']) && AllPlain(s[a' + 1..d]) && AllPlain(s[d + 1..]);
      PlainAround(s, a', d);
      assert a == a';
      assert '@' !in s[a + 1..];
    }
  }

  /** In a string of the pattern's shape, every character other than the
      '@' is plain. */
  lemma PlainAround(s: string, a: nat, d: nat)
    requires 0 < a && a + 1 < d && d + 1 < |s| && s[a] == '@' && s[d] == '.'
    requires AllPlain(s[..a]) && AllPlain(s[a + 1..d]) && AllPlain(s[d + 1..])
    ensures forall i :: 0 <= i < |s| && i != a ==> Plain(s[i])
    ensures forall i :: 0 <= i < |s| ==> !IsSpace(s[i])
  {
    forall i | 0 <= i < |s| && i != a ensures Plain(s[i]) {
      if i < a {
        assert s[i] == s[..a][i];
      } else if i < d {
        assert s[i] == s[a + 1..d][i - (a + 1)];
      } else if i > d {
        assert s[i] == s[d + 1..][i - (d + 1)];
      }
    }
  }

  /** The record of answers holds the five fields of the wizard. */
  predicate HasFields(data: map<string, string>)
  {
    "name" in data && "email" in data && "cookingApproach" in data &&
    "storageSize" in data && "householdSize" in data
  }

  /** The answers before the user has given any. */
  function InitialData(): (data: map<string, string>)
    ensures HasFields(data)
    ensures data.Keys == {"name", "email", "cookingApproach", "storageSize", "householdSize"}
    ensures forall f :: f in data ==> data[f] == ""
  {
    map["name" := "", "email" := "", "cookingApproach" := "", "storageSize" := "", "householdSize" := ""]
  }

  /** `isStepValid`: whether the answer the current step asks for is
      acceptable. */
  function StepValid(step: int, data: map<string, string>): (ok: bool)
    requires HasFields(data)
    ensures step == 1 ==> (ok <==> !Blank(data["name"]))
    ensures step == 2 ==> (ok <==> EmailShape(data["email"]))
    ensures step == 3 ==> (ok <==> data["householdSize"] != "")
    ensures step == 4 ==> (ok <==> data["cookingApproach"] != "")
    ensures step == 5 ==> (ok <==> data["storageSize"] != "")
    ensures ok ==> 1 <= step <= 5
  {
    TrimEmpty(data["name"]);
    EmailValidShape(data["email"]);
    match step
    case 1 => Trim(data["name"]) != ""
    case 2 => EmailValid(data["email"])
    case 3 => data["householdSize"] != ""
    case 4 => data["cookingApproach"] != ""
    case 5 => data["storageSize"] != ""
    case _ => false
  }

  /** `progressPercentage`: the step as a share of five, in percent. */
  function Progress(step: int): (p: real)
    ensures p == 20.0 * step as real
    ensures 1 <= step <= 5 ==> 0.0 < p <= 100.0 && (p == 100.0 <==> step == 5)
  {
    (step as real / 5.0) * 100.0
  }

  /** The wizard's component state. */
  class OnboardingFlow {
    var step: int
    var isComplete: bool
    var userData: map<string, string>

    /** The step stays among the five, and every field has an answer. */
    predicate Valid()
      reads this
    {
      1 <= step <= 5 && HasFields(userData)
    }

    /** The initial state: step 1, not complete, every answer empty. */
    constructor ()
      ensures Valid()
      ensures step == 1 && !isComplete && userData == InitialData()
    {
      step := 1;
      isComplete := false;
      userData := InitialData();
    }

    /** `handleChange`: the input named `name` now holds `value`. */
    method HandleChange(name: string, value: string)
      requires Valid()
      modifies this
      ensures Valid()
      ensures userData == old(userData)[name := value]
      ensures step == old(step) && isComplete == old(isComplete)
    {
      userData := userData[name := value];
    }

    /** `handleOptionSelect`: the option field `field` now holds `value`. */
    method HandleOptionSelect(field: string, value: string)
      requires Valid()
      modifies this
      ensures Valid()
      ensures userData == old(userData)[field := value]
      ensures step == old(step) && isComplete == old(isComplete)
    {
      userData := userData[field := value];
    }

    /** `handleSubmit`: moves to the next step, or on the last step marks the
        wizard complete. It does not check that the step is valid. */
    method HandleSubmit()
      requires Valid()
      modifies this
      ensures Valid()
      ensures old(step) < 5 ==> step == old(step) + 1 && isComplete == old(isComplete)
      ensures old(step) == 5 ==> step == 5 && isComplete
      ensures userData == old(userData)
    {
      if step < 5 {
        step := step + 1;
      } else {
        isComplete := true;
      }
    }

    /** `handleBack`: moves to the previous step, if there is one. */
    method HandleBack()
      requires Valid()
      modifies this
      ensures Valid()
      ensures step == if old(step) > 1 then old(step) - 1 else 1
      ensures isComplete == old(isComplete) && userData == old(userData)
    {
      if step > 1 {
        step := step - 1;
      }
    }

    /** `isStepValid()` on the current state. */
    function IsStepValid(): bool
      reads this
      requires Valid()
    {
      StepValid(step, userData)
    }

    /** `progressPercentage` on the current state. */
    function ProgressPercentage(): real
      reads this
    {
      Progress(step)
    }
  }
}
