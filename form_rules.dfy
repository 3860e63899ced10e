/**
 * The per-input rule of the submit handler in js/form.js: the trimmed
 * value must be non-empty, an email input must match
 * /^[^\s@]+@[^\s@]+\.[^\s@]+$/, and a password input must be at least six
 * UTF-16 code units long. The first failing check gives the message.
 */
module FormRules {
  import opened Text

  /**
   * The characters of ECMAScript's WhiteSpace and LineTerminator
   * productions: what String.prototype.trim removes and what `\s` matches.
   */
  const JsWhitespace: set<char> := {
    '\t', '\n', '\U{000B}', '\U{000C}', '\r', ' ', '\U{00A0}', '\U{1680}',
    '\U{2000}', '\U{2001}', '\U{2002}', '\U{2003}', '\U{2004}', '\U{2005}',
    '\U{2006}', '\U{2007}', '\U{2008}', '\U{2009}', '\U{200A}',
    '\U{2028}', '\U{2029}', '\U{202F}', '\U{205F}', '\U{3000}', '\U{FEFF}'
  }

  const RequiredMessage := "Este campo es obligatorio"
  const EmailMessage := "Ingrese un correo válido"
  const PasswordMessage := "La contraseña debe tener al menos 6 caracteres"
  const MinPasswordLength := 6

  /** The `type` of a required control, as far as the rule looks at it. */
  datatype InputType = EmailInput | PasswordInput | OtherInput

  /** A form control: its type, its current value and its `required` attribute. */
  datatype Field = Field(kind: InputType, value: string, required: bool)

  datatype Check = Pass | Fail(message: string)

  /** `value.trim()` */
  function JsTrim(s: string): string
  {
    Trim(s, JsWhitespace)
  }

  /** `s.length`: the number of UTF-16 code units of `s`. */
  function Utf16Length(s: string): (n: nat)
    ensures |s| <= n <= 2 * |s|
  {
    if s == [] then 0
    else (if s[0] as int > 0xFFFF then 2 else 1) + Utf16Length(s[1..])
  }

  /** The character class `[^\s@]`. */
  predicate PlainChar(c: char)
  {
    c !in JsWhitespace && c != '@'
  }

  /** `[^\s@]+`: a non-empty run of plain characters. */
  predicate PlainRun(s: string)
  {
    s != [] && forall i :: 0 <= i < |s| ==> PlainChar(s[i])
  }

  /**
   * The anchored pattern `^[^\s@]+@[^\s@]+\.[^\s@]+$`, read off its
   * structure: `v` splits at an `@` (index `at`) and a later `.` (index
   * `dot`) into three plain runs.
   */
  ghost predicate MatchesEmailRegex(v: string)
  {
    exists at, dot :: EmailSplit(v, at, dot)
  }

  predicate EmailSplit(v: string, at: int, dot: int)
  {
    0 <= at < dot < |v| && v[at] == '@' && v[dot] == '.'
    && PlainRun(v[..at]) && PlainRun(v[at + 1..dot]) && PlainRun(v[dot + 1..])
  }

  /** The index of the first `c` in `s`. */
  function IndexOf(s: string, c: char): (i: nat)
    requires c in s
    ensures i < |s| && s[i] == c && c !in s[..i]
  {
    if s[0] == c then 0
    else
      var i := 1 + IndexOf(s[1..], c);
      assert s[..i] == [s[0]] + s[1..][..i - 1];
      i
  }

  /**
   * The email test as a scan: no whitespace anywhere, exactly one `@` and
   * not at the start, and after it a `.` that is neither the first nor the
   * last character of the domain part.
   */
  predicate IsEmail(v: string)
  {
    && (forall c :: c in v ==> c !in JsWhitespace)
    && '@' in v
    && var at := IndexOf(v, '@');
       && at > 0
       && '@' !in v[at + 1..]
       && var domain := v[at + 1..];
          |domain| >= 3 && '.' in domain[1..|domain| - 1]
  }

  /** The rule applied to one required control. */
  function CheckField(f: Field): Check
  {
    var value := JsTrim(f.value);
    if value == "" then Fail(RequiredMessage)
    else if f.kind == EmailInput && !IsEmail(value) then Fail(EmailMessage)
    else if f.kind == PasswordInput && Utf16Length(value) < MinPasswordLength then Fail(PasswordMessage)
    else Pass
  }

  // ---------------------------------------------------------------------
  // Properties

  /** The scan and the regular expression accept the same strings. */
  lemma IsEmailIffRegex(v: string)
    ensures IsEmail(v) <==> MatchesEmailRegex(v)
  {
    if IsEmail(v) {
      var at := IndexOf(v, '@');
      var domain := v[at + 1..];
      var k := IndexOf(domain[1..|domain| - 1], '.');
      var dot := at + 2 + k;
      assert v[dot] == '.' by { assert domain[1..|domain| - 1][k] == domain[1 + k]; }
      assert PlainRun(v[..at]) by {
        forall i | 0 <= i < at ensures PlainChar(v[..at][i]) {
          assert v[..at][i] == v[i] && v[i] in v;
          assert v[i] != '@' by { assert v[..at][i] in v[..at]; }
        }
      }
      forall i | at + 1 <= i < |v| ensures PlainChar(v[i]) {
        assert v[i] in v;
        assert v[i] == domain[i - at - 1] && domain[i - at - 1] in domain;
      }
      var mid, top := v[at + 1..dot], v[dot + 1..];
      assert PlainRun(mid) by {
        forall i | 0 <= i < |mid| ensures PlainChar(mid[i]) {
          assert mid[i] == v[at + 1 + i];
        }
      }
      assert PlainRun(top) by {
        forall i | 0 <= i < |top| ensures PlainChar(top[i]) {
          assert top[i] == v[dot + 1 + i];
        }
      }
      assert EmailSplit(v, at, dot);
    }
    if MatchesEmailRegex(v) {
      var at, dot :| EmailSplit(v, at, dot);
      RegexSplitIsEmail(v, at, dot);
    }
  }

  lemma RegexSplitIsEmail(v: string, at: int, dot: int)
    requires EmailSplit(v, at, dot)
    ensures IsEmail(v)
  {
    forall i | 0 <= i < |v| ensures v[i] !in JsWhitespace && (v[i] == '@' ==> i == at) {
      if i < at { assert v[..at][i] == v[i]; }
      else if at < i < dot { assert v[at + 1..dot][i - at - 1] == v[i]; }
      else if dot < i { assert v[dot + 1..][i - dot - 1] == v[i]; }
    }
    assert '@' in v by { assert v[at] == '@'; }
    var first := IndexOf(v, '@');
    assert first == at;
    var domain := v[at + 1..];
    assert '@' !in domain by {
      forall j | 0 <= j < |domain| ensures domain[j] != '@' { assert domain[j] == v[at + 1 + j]; }
    }
    assert domain[1..|domain| - 1][dot - at - 2] == '.';
  }

  /** An input whose trimmed value is empty fails with the "required" message, whatever its type. */
  lemma EmptyFailsFirst(f: Field)
    requires JsTrim(f.value) == ""
    ensures CheckField(f) == Fail(RequiredMessage)
  {
  }

  /** A non-empty email input passes exactly when its trimmed value matches the pattern. */
  lemma EmailRule(f: Field)
    requires f.kind == EmailInput && JsTrim(f.value) != ""
    ensures CheckField(f).Pass? <==> MatchesEmailRegex(JsTrim(f.value))
    ensures CheckField(f).Fail? ==> CheckField(f).message == EmailMessage
  {
    IsEmailIffRegex(JsTrim(f.value));
  }

  /** A password input fails exactly when its trimmed value is shorter than six code units. */
  lemma PasswordRule(f: Field)
    requires f.kind == PasswordInput
    ensures CheckField(f).Fail? <==> Utf16Length(JsTrim(f.value)) < MinPasswordLength
  {
  }

  /** Inputs of any other type only need a non-blank value. */
  lemma OtherRule(f: Field)
    requires f.kind == OtherInput
    ensures CheckField(f).Pass? <==> !AllIn(f.value, JsWhitespace)
  {
    assert CheckField(f) == if JsTrim(f.value) == "" then Fail(RequiredMessage) else Pass;
    TrimSpec(f.value, JsWhitespace);
  }

  /** The message of the first failing check among `checks`, in order. */
  function FirstFailure(checks: seq<Check>): (c: Check)
    ensures c.Fail? <==> exists i :: 0 <= i < |checks| && checks[i].Fail?
  {
    if checks == [] then Pass
    else if checks[0].Fail? then checks[0]
    else
      var c := FirstFailure(checks[1..]);
      assert forall i :: 1 <= i < |checks| ==> checks[i] == checks[1..][i - 1];
      c
  }

  /**
   * The three checks in the order the handler runs them, each on its own:
   * blank value, email pattern, password length.
   */
  ghost function Checks(f: Field): seq<Check>
  {
    var value := JsTrim(f.value);
    [ if value == "" then Fail(RequiredMessage) else Pass,
      if f.kind == EmailInput && !MatchesEmailRegex(value) then Fail(EmailMessage) else Pass,
      if f.kind == PasswordInput && Utf16Length(value) < MinPasswordLength then Fail(PasswordMessage) else Pass ]
  }

  /** The rule gives the message of the first failing check, in the handler's order. */
  lemma FirstFailureDecides(f: Field)
    ensures CheckField(f) == FirstFailure(Checks(f))
  {
    var value := JsTrim(f.value);
    IsEmailIffRegex(value);
    var cs := Checks(f);
    if value == "" {
      assert cs[0] == Fail(RequiredMessage);
    } else {
      assert FirstFailure(cs) == FirstFailure(cs[1..]);
      if f.kind == EmailInput && !IsEmail(value) {
        assert cs[1] == Fail(EmailMessage);
      } else {
        assert FirstFailure(cs[1..]) == FirstFailure(cs[2..]);
        assert cs[2..][1..] == [];
      }
    }
  }
}
