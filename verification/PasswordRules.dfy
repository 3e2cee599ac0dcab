/**
 What a new dashboard password must look like, and what the form says about it
 while it is being typed.
 */
module PasswordRules {
  import opened Wrappers

  const MIN_LENGTH := 8
  const MAX_BYTES := 72

  /** One UTF-16 code unit; a password is the string of code units the form holds. */
  type Unit = u: int | 0 <= u < 0x1_0000
  type Password = seq<Unit>

  predicate IsDigit(u: Unit) { '0' as int <= u <= '9' as int }
  predicate IsLower(u: Unit) { 'a' as int <= u <= 'z' as int }
  predicate IsUpper(u: Unit) { 'A' as int <= u <= 'Z' as int }

  predicate IsSpace(u: Unit) {
    || 0x9 <= u <= 0xD || u == 0x20 || u == 0xA0 || u == 0x1680 || 0x2000 <= u <= 0x200A
    || u == 0x2028 || u == 0x2029 || u == 0x202F || u == 0x205F || u == 0x3000 || u == 0xFEFF
  }

  /** Neither a word character nor white space. */
  predicate IsSymbol(u: Unit) {
    !IsDigit(u) && !IsLower(u) && !IsUpper(u) && u != '_' as int && !IsSpace(u)
  }

  predicate OnlyDigits(p: Password) {
    p != [] && forall k :: 0 <= k < |p| ==> IsDigit(p[k])
  }

  predicate Leads(p: Password) {
    |p| >= 2 && 0xD800 <= p[0] < 0xDC00 && 0xDC00 <= p[1] < 0xE000
  }

  /** Bytes of the UTF-8 encoding; half of a surrogate pair on its own is encoded as U+FFFD. */
  function Bytes(p: Password): nat {
    if p == [] then 0
    else if Leads(p) then 4 + Bytes(p[2..])
    else (if p[0] < 0x80 then 1 else if p[0] < 0x800 then 2 else 3) + Bytes(p[1..])
  }

  lemma {:induction false} BytesBounds(p: Password)
    ensures |p| <= Bytes(p) <= 3 * |p|
    decreases |p|
  {
    if p != [] {
      BytesBounds(if Leads(p) then p[2..] else p[1..]);
    }
  }

  /** Appending never shortens the encoding, not even where it completes a surrogate pair. */
  lemma {:induction false} BytesGrow(p: Password, q: Password)
    ensures Bytes(p) <= Bytes(p + q)
    decreases |p|
  {
    if p == [] {
    } else if Leads(p) {
      BytesGrow(p[2..], q);
      assert (p + q)[2..] == p[2..] + q;
    } else if Leads(p + q) {
      assert |p| == 1 && Bytes(p) == 3 + Bytes([]);
    } else {
      BytesGrow(p[1..], q);
      assert (p + q)[1..] == p[1..] + q;
    }
  }

  /** The bytes of one code unit, and of a surrogate pair. */
  lemma BytesOfOne(u: Unit)
    ensures Bytes([u]) == if u <= 127 then 1 else if u <= 2047 then 2 else 3
    ensures forall low: Unit :: 0xD800 <= u <= 0xDBFF && 0xDC00 <= low <= 0xDFFF ==> Bytes([u, low]) == 4
  {
    assert [u][1..] == [];
    forall low: Unit | 0xD800 <= u <= 0xDBFF && 0xDC00 <= low <= 0xDFFF ensures Bytes([u, low]) == 4 {
      assert [u, low][2..] == [];
    }
  }

  /** The encoding of a concatenation is that of its parts, except that a surrogate pair cut in two
      would take two bytes more. */
  lemma {:induction false} BytesOfBoth(p: Password, q: Password)
    ensures var cut := p != [] && q != [] && 0xD800 <= p[|p| - 1] <= 0xDBFF && 0xDC00 <= q[0] <= 0xDFFF;
            Bytes(p + q) == Bytes(p) + Bytes(q) - if cut then 2 else 0
    decreases |p|
  {
    if p == [] {
      assert p + q == q;
    } else if Leads(p) {
      BytesOfBoth(p[2..], q);
      assert (p + q)[2..] == p[2..] + q;
    } else if Leads(p + q) {
      assert |p| == 1 && p[1..] == [] && (p + q)[2..] == q[1..];
    } else {
      BytesOfBoth(p[1..], q);
      assert (p + q)[1..] == p[1..] + q;
    }
  }

  // ---------------------------------------------------------------- the rule check

  datatype FieldError =
    | EnterPassword | TooShort | OnlyNumbers | TooLong
    | EnterNew | SameAsCurrent | ReEnter | NoMatch | EnterCurrent
    | NotCurrent | Weak(pwned: bool, characters: bool, length: bool) | CannotBeUsed

  function Problem(p: Password): Option<FieldError> {
    if |p| == 0 then Some(EnterPassword)
    else if |p| < MIN_LENGTH then Some(TooShort)
    else if OnlyDigits(p) then Some(OnlyNumbers)
    else if Bytes(p) > MAX_BYTES then Some(TooLong)
    else None
  }

  /** Every accepted password has 8 to 72 code units, and the byte ceiling can only bite from
      25 code units up. */
  lemma AcceptedSizes(p: Password)
    ensures Problem(p).None? ==> MIN_LENGTH <= |p| <= MAX_BYTES
    ensures Problem(p) == Some(TooLong) ==> |p| >= 25
    ensures |p| > MAX_BYTES ==> Problem(p).Some?
  {
    BytesBounds(p);
  }

  /** Each complaint by what is wrong: too short below eight code units, only digits, more than 72
      bytes. */
  lemma ProblemIff(p: Password)
    ensures var digits := forall k :: 0 <= k < |p| ==> 48 <= p[k] <= 57;
            && (Problem(p) == Some(EnterPassword) <==> p == [])
            && (Problem(p) == Some(TooShort) <==> 1 <= |p| <= 7)
            && (Problem(p) == Some(OnlyNumbers) <==> |p| >= 8 && digits)
            && (Problem(p) == Some(TooLong) <==> |p| >= 8 && !digits && Bytes(p) > 72)
            && (Problem(p).None? <==> |p| >= 8 && !digits && Bytes(p) <= 72)
  {
    var digits := forall k :: 0 <= k < |p| ==> 48 <= p[k] <= 57;
    assert OnlyDigits(p) <==> p != [] && digits;
  }

  function Count(b: bool): nat { if b then 1 else 0 }

  /** How many of lower case, upper case, digits and symbols occur. */
  function Classes(p: Password): nat {
    Count(exists k :: 0 <= k < |p| && IsLower(p[k])) + Count(exists k :: 0 <= k < |p| && IsUpper(p[k])) +
    Count(exists k :: 0 <= k < |p| && IsDigit(p[k])) + Count(exists k :: 0 <= k < |p| && IsSymbol(p[k]))
  }

  method Strength(p: Password) returns (score: nat)
    ensures score == Score(p)
  {
    if Problem(p).Some? {
      return 0;
    }
    score := 1;
    if |p| >= 12 {
      score := score + 1;
    }
    if Classes(p) >= 3 {
      score := score + 1;
    }
    score := if score < 3 then score else 3;
  }

  /** 0 for a refused password, then one point each for being accepted, length and variety. */
  function Score(p: Password): nat {
    if Problem(p).Some? then 0 else 1 + Count(|p| >= 12) + Count(Classes(p) >= 3)
  }

  /** Some code unit lies in the range. */
  predicate OneOf(p: Password, low: int, high: int) {
    exists k :: 0 <= k < |p| && low <= p[k] <= high
  }

  /** The top score is for accepted passwords of at least twelve code units in which at most one of
      small letters, capitals, digits and symbols is missing. */
  lemma StrongIff(p: Password)
    ensures var (small, capital, digit, symbol) :=
              (OneOf(p, 97, 122), OneOf(p, 65, 90), OneOf(p, 48, 57), exists k :: 0 <= k < |p| && IsSymbol(p[k]));
            var mixed :=
              if small && capital then digit || symbol else (small || capital) && digit && symbol;
            && Score(p) <= 3
            && (Score(p) == 3 <==> Problem(p).None? && |p| >= 12 && mixed)
            && (Score(p) == 2 <==> Problem(p).None? && (|p| >= 12) != mixed)
            && (Score(p) == 1 <==> Problem(p).None? && |p| < 12 && !mixed)
  {
    assert OneOf(p, 97, 122) <==> exists k :: 0 <= k < |p| && IsLower(p[k]);
    assert OneOf(p, 65, 90) <==> exists k :: 0 <= k < |p| && IsUpper(p[k]);
    assert OneOf(p, 48, 57) <==> exists k :: 0 <= k < |p| && IsDigit(p[k]);
  }

  /** Among the ASCII characters the symbols are the printed ones that are not letters, digits or the
      underscore, and the control characters that are no white space. */
  lemma AsciiSymbols(u: Unit)
    requires u < 128
    ensures IsSymbol(u) <==>
              || 0 <= u <= 8 || 14 <= u <= 31 || 33 <= u <= 47 || 58 <= u <= 64
              || 91 <= u <= 94 || u == 96 || 123 <= u <= 127
  {
  }

  lemma ClassesGrow(p: Password, q: Password)
    ensures Classes(p) <= Classes(p + q)
  {
    assert forall k :: 0 <= k < |p| ==> (p + q)[k] == p[k];
  }

  /** The meter never contradicts the form, and typing on never lowers it unless the byte ceiling
      is passed. */
  lemma StrengthIsMonotone(p: Password, q: Password)
    ensures Score(p) == 0 <==> Problem(p).Some?
    ensures Score(p + q) < Score(p) <==> Problem(p).None? && Problem(p + q) == Some(TooLong)
  {
    ClassesGrow(p, q);
    if p != [] {
      DigitsBefore(p, q);
    }
  }

  lemma DigitsBefore(p: Password, q: Password)
    requires p != []
    ensures OnlyDigits(p + q) ==> OnlyDigits(p)
  {
    assert forall k :: 0 <= k < |p| ==> p[k] == (p + q)[k];
  }

  // ---------------------------------------------------------------- the forms

  datatype FieldErrors = FieldErrors(
    currentPassword: Option<FieldError>,
    newPassword: Option<FieldError>,
    confirmPassword: Option<FieldError>)
  {
    predicate Any() {
      currentPassword.Some? || newPassword.Some? || confirmPassword.Some?
    }
  }

  const NO_ERRORS := FieldErrors(None, None, None)

  /** The errors of the two fields both forms share; `current` is missing on the reset form. */
  method ValidateNewAndConfirm(newPassword: Password, confirm: Password, current: Option<Password>)
    returns (errors: FieldErrors)
    ensures errors == NewAndConfirmErrors(newPassword, confirm, current)
  {
    errors := NO_ERRORS;
    if newPassword == [] {
      errors := errors.(newPassword := Some(EnterNew));
    } else {
      var problem := Problem(newPassword);
      if problem.Some? {
        errors := errors.(newPassword := problem);
      } else if current.Some? && current.value != [] && newPassword == current.value {
        errors := errors.(newPassword := Some(SameAsCurrent));
      }
    }
    if confirm == [] {
      errors := errors.(confirmPassword := Some(ReEnter));
    } else if confirm != newPassword {
      errors := errors.(confirmPassword := Some(NoMatch));
    }
  }

  function NewAndConfirmErrors(newPassword: Password, confirm: Password, current: Option<Password>): FieldErrors {
    FieldErrors(
      None,
      if newPassword == [] then Some(EnterNew)
      else if Problem(newPassword).Some? then Problem(newPassword)
      else if current == Some(newPassword) then Some(SameAsCurrent)
      else None,
      if confirm == [] then Some(ReEnter) else if confirm != newPassword then Some(NoMatch) else None)
  }

  function ChangeErrors(current: Password, newPassword: Password, confirm: Password): FieldErrors {
    var errors := NewAndConfirmErrors(newPassword, confirm, Some(current));
    if current == [] then errors.(currentPassword := Some(EnterCurrent)) else errors
  }

  method ValidateChange(current: Password, newPassword: Password, confirm: Password) returns (errors: FieldErrors)
    ensures errors == ChangeErrors(current, newPassword, confirm)
  {
    errors := ValidateNewAndConfirm(newPassword, confirm, Some(current));
    if current == [] {
      errors := errors.(currentPassword := Some(EnterCurrent));
    }
  }

  /** What each field of the change form says, and when the form as a whole has nothing to say. */
  lemma FormErrors(current: Password, newPassword: Password, confirm: Password)
    ensures var errors := ChangeErrors(current, newPassword, confirm);
            && errors.currentPassword == (if current == [] then Some(EnterCurrent) else None)
            && (errors.newPassword == Some(EnterNew) <==> newPassword == [])
            && (errors.newPassword == Some(SameAsCurrent) <==> Problem(newPassword).None? && newPassword == current)
            && (newPassword != [] && Problem(newPassword).Some? ==> errors.newPassword == Problem(newPassword))
            && (errors.newPassword.None? <==> Problem(newPassword).None? && newPassword != current)
            && (errors.confirmPassword == Some(ReEnter) <==> confirm == [])
            && (errors.confirmPassword == Some(NoMatch) <==> confirm != [] && confirm != newPassword)
            && (errors.confirmPassword.None? <==> confirm != [] && confirm == newPassword)
            && (!errors.Any() <==>
                  && current != [] && newPassword != current && confirm == newPassword
                  && Problem(newPassword).None?)
            && NewAndConfirmErrors(newPassword, confirm, None) ==
                 FieldErrors(None,
                             if Problem(newPassword).None? then None else if newPassword == [] then Some(EnterNew)
                             else Problem(newPassword),
                             errors.confirmPassword)
  {
  }

  /** Whether each line of the live checklist is ticked. */
  function Checklist(newPassword: Password, current: Option<Password>): seq<bool> {
    [|newPassword| >= MIN_LENGTH, |newPassword| > 0 && !OnlyDigits(newPassword)] +
    if current.Some? then [|newPassword| > 0 && newPassword != current.value] else []
  }

  predicate AllTicked(newPassword: Password, current: Option<Password>) {
    forall k :: 0 <= k < |Checklist(newPassword, current)| ==> Checklist(newPassword, current)[k]
  }

  /** A fully ticked checklist is not yet an accepted password: the byte ceiling has no line.
      It is accepted exactly when it also stays within that ceiling. */
  lemma ChecklistAccepts(newPassword: Password, confirm: Password, current: Option<Password>)
    ensures AllTicked(newPassword, current) && Bytes(newPassword) <= MAX_BYTES
            <==> NewAndConfirmErrors(newPassword, confirm, current).newPassword.None?
  {
    var list := Checklist(newPassword, current);
    assert list[0] == (|newPassword| >= MIN_LENGTH);
    assert list[1] == (|newPassword| > 0 && !OnlyDigits(newPassword));
    assert current.Some? ==> list[2] == (|newPassword| > 0 && newPassword != current.value);
  }

  const LONG: Password := seq(73, i => 'a' as int as Unit)

  /** A ticked checklist over a password the form refuses. */
  lemma TickedButRefused()
    ensures AllTicked(LONG, None)
    ensures NewAndConfirmErrors(LONG, LONG, None).newPassword == Some(TooLong)
  {
    BytesBounds(LONG);
    assert !IsDigit(LONG[0]);
    assert |LONG| == 73;
  }
}
