/** The contact form's field validator: `validateField` and `validateForm`. */
module ContactForm {

  /** ECMAScript white space and line terminators: what `String.prototype.trim` removes and
      what the regular-expression class `\s` matches. */
  predicate IsSpace(c: char) {
    c == '\t' || c == '\n' || c == '\U{000B}' || c == '\U{000C}' || c == '\r' || c == ' ' ||
    c == '\U{00A0}' || c == '\U{1680}' || ('\U{2000}' <= c <= '\U{200A}') ||
    c == '\U{2028}' || c == '\U{2029}' || c == '\U{202F}' || c == '\U{205F}' ||
    c == '\U{3000}' || c == '\U{FEFF}'
  }

  ghost predicate AllSpace(s: string) {
    forall k :: 0 <= k < |s| ==> IsSpace(s[k])
  }

  function TrimStart(s: string): (r: string)
    ensures |r| <= |s| && r == s[|s| - |r|..]
    ensures AllSpace(s[..|s| - |r|])
    ensures r == [] || !IsSpace(r[0])
  {
    if |s| > 0 && IsSpace(s[0]) then TrimStart(s[1..]) else s
  }

  function TrimEnd(s: string): (r: string)
    ensures |r| <= |s| && r == s[..|r|]
    ensures AllSpace(s[|r|..])
    ensures r == [] || !IsSpace(r[|r| - 1])
  {
    if |s| > 0 && IsSpace(s[|s| - 1]) then
      var r := TrimEnd(s[..|s| - 1]);
      assert s[|r|..] == s[..|s| - 1][|r|..] + [s[|s| - 1]];
      r
    else s
  }

  /** `value.trim()`: drops white space at both ends. */
  function Trim(s: string): string {
    TrimEnd(TrimStart(s))
  }

  lemma {:induction false} TrimStartPadded(p: string, s: string)
    requires AllSpace(p)
    ensures TrimStart(p + s) == TrimStart(s)
    decreases |p|
  {
    if |p| > 0 {
      assert IsSpace((p + s)[0]);
      assert AllSpace(p[1..]);
      assert (p + s)[1..] == p[1..] + s;
      TrimStartPadded(p[1..], s);
      assert TrimStart(p + s) == TrimStart((p + s)[1..]);
    } else {
      assert p + s == s;
    }
  }

  lemma {:induction false} TrimEndPadded(s: string, q: string)
    requires AllSpace(q)
    ensures TrimEnd(s + q) == TrimEnd(s)
    decreases |q|
  {
    if |q| > 0 {
      assert IsSpace((s + q)[|s + q| - 1]);
      assert AllSpace(q[..|q| - 1]);
      assert (s + q)[..|s + q| - 1] == s + q[..|q| - 1];
      TrimEndPadded(s, q[..|q| - 1]);
      assert TrimEnd(s + q) == TrimEnd((s + q)[..|s + q| - 1]);
    } else {
      assert s + q == s;
    }
  }

  lemma {:induction false} TrimStartKeepsTail(s: string, q: string)
    requires TrimStart(s) != []
    ensures TrimStart(s + q) == TrimStart(s) + q
    decreases |s|
  {
    if |s| > 0 && IsSpace(s[0]) {
      assert (s + q)[1..] == s[1..] + q;
      TrimStartKeepsTail(s[1..], q);
    }
  }

  lemma {:induction false} TrimStartAllSpace(s: string, q: string)
    requires TrimStart(s) == []
    ensures TrimStart(s + q) == TrimStart(q)
    decreases |s|
  {
    if |s| > 0 {
      assert (s + q)[1..] == s[1..] + q;
      TrimStartAllSpace(s[1..], q);
    } else {
      assert s + q == q;
    }
  }

  /** Surrounding white space never changes the trimmed value. */
  lemma TrimPadded(p: string, s: string, q: string)
    requires AllSpace(p) && AllSpace(q)
    ensures Trim(p + s + q) == Trim(s)
  {
    assert p + s + q == p + (s + q);
    TrimStartPadded(p, s + q);
    if TrimStart(s) == [] {
      TrimStartAllSpace(s, q);
      TrimStartPadded(q, []);
      assert q + [] == q;
    } else {
      TrimStartKeepsTail(s, q);
      TrimEndPadded(TrimStart(s), q);
    }
  }

  /** `.length` counts UTF-16 code units: characters above U+FFFF count twice. */
  function Utf16Length(s: string): (n: nat)
    ensures |s| <= n <= 2 * |s|
  {
    if s == [] then 0 else (if s[0] as int > 0xFFFF then 2 else 1) + Utf16Length(s[1..])
  }

  // ---- phone: /^\+?[0-9\s-]{7,20}$/ ----

  predicate PhoneChar(c: char) {
    ('0' <= c <= '9') || IsSpace(c) || c == '-'
  }

  predicate AllPhoneChars(s: string) {
    forall k :: 0 <= k < |s| ==> PhoneChar(s[k])
  }

  /** The phone check as the validator runs it: drop one leading `+`, then 7 to 20 characters
      from the class. */
  predicate PhoneMatches(t: string) {
    var digits := if |t| > 0 && t[0] == '+' then t[1..] else t;
    7 <= |digits| <= 20 && AllPhoneChars(digits)
  }

  /** The pattern read literally: an optional `+` followed by 7 to 20 class characters. */
  ghost predicate PhonePattern(t: string) {
    exists plus: string, body: string ::
      (plus == [] || plus == ['+']) && t == plus + body &&
      7 <= |body| <= 20 && AllPhoneChars(body)
  }

  lemma PhoneMatchesPattern(t: string)
    ensures PhoneMatches(t) <==> PhonePattern(t)
  {
    if PhoneMatches(t) {
      if |t| > 0 && t[0] == '+' {
        assert t == ['+'] + t[1..];
      } else {
        assert t == [] + t;
      }
    }
    if PhonePattern(t) {
      var plus: string, body: string :|
        (plus == [] || plus == ['+']) && t == plus + body &&
        7 <= |body| <= 20 && AllPhoneChars(body);
      if plus == [] {
        assert t == body;
        assert !PhoneChar('+');
      } else {
        assert t[1..] == body;
      }
    }
  }

  // ---- email: /^[^\s@]+@[^\s@]+\.[^\s@]+$/ ----


  function CountOf(s: string, c: char): nat {
    if s == [] then 0 else (if s[0] == c then 1 else 0) + CountOf(s[1..], c)
  }

  function IndexOf(s: string, c: char): (i: nat)
    requires c in s
    ensures i < |s| && s[i] == c && c !in s[..i]
  {
    if s[0] == c then 0 else 1 + IndexOf(s[1..], c)
  }

  /** The e-mail check: no white space, exactly one `@`, something before it, and after it a
      `.` with at least one character on each side. */
  predicate NoSpace(s: string) {
    forall k :: 0 <= k < |s| ==> !IsSpace(s[k])
  }

  lemma NoSpaceAppend(x: string, y: string)
    requires NoSpace(x) && NoSpace(y)
    ensures NoSpace(x + y)
  {
    forall k | 0 <= k < |x + y| ensures !IsSpace((x + y)[k]) {
      if k >= |x| { assert (x + y)[k] == y[k - |x|]; }
    }
  }

  /** A run of the class `[^\s@]`. */
  predicate Plain(s: string) {
    NoSpace(s) && '@' !in s
  }

  lemma NoSpaceSlice(s: string, i: int, j: int)
    requires NoSpace(s) && 0 <= i <= j <= |s|
    ensures NoSpace(s[i..j])
  {
    forall k | 0 <= k < j - i ensures !IsSpace(s[i..j][k]) {
      assert s[i..j][k] == s[i + k];
    }
  }

  predicate EmailMatches(t: string) {
    && NoSpace(t)
    && '@' in t
    && CountOf(t, '@') == 1
    && var i := IndexOf(t, '@');
       0 < i && i + 2 <= |t| - 1 && '.' in t[i + 2..|t| - 1]
  }

  /** The pattern read literally: three non-empty runs without white space or `@`, joined by
      `@` and `.`. */
  ghost predicate EmailPattern(t: string) {
    exists a: string, b: string, c: string ::
      |a| > 0 && |b| > 0 && |c| > 0 && Plain(a) && Plain(b) && Plain(c) &&
      t == a + ['@'] + b + ['.'] + c
  }

  lemma {:induction false} CountOfAppend(s: string, u: string, c: char)
    ensures CountOf(s + u, c) == CountOf(s, c) + CountOf(u, c)
    decreases |s|
  {
    if s == [] {
      assert s + u == u;
    } else {
      assert (s + u)[1..] == s[1..] + u;
      CountOfAppend(s[1..], u, c);
    }
  }

  lemma {:induction false} CountOfAbsent(s: string, c: char)
    requires c !in s
    ensures CountOf(s, c) == 0
    decreases |s|
  {
    if s != [] {
      CountOfAbsent(s[1..], c);
    }
  }

  lemma {:induction false} CountOfPositive(s: string, c: char)
    requires c in s
    ensures CountOf(s, c) > 0
    decreases |s|
  {
    if s[0] != c {
      CountOfPositive(s[1..], c);
    }
  }

  lemma EmailMatchesImpliesPattern(t: string)
    requires EmailMatches(t)
    ensures EmailPattern(t)
  {
    var i := IndexOf(t, '@');
    var k :| i + 2 <= k < |t| - 1 && t[k] == '.' by {
      var u := t[i + 2..|t| - 1];
      var j :| 0 <= j < |u| && u[j] == '.';
      assert t[i + 2 + j] == '.';
    }
    AtOnlyOnce(t, i);
    SplitPlain(t, i, k);
    assert t == t[..i] + ['@'] + t[i + 1..k] + ['.'] + t[k + 1..];
  }

  /** Past the first `@` of a string with one `@` there is none. */
  lemma AtOnlyOnce(t: string, i: nat)
    requires '@' in t && CountOf(t, '@') == 1 && i == IndexOf(t, '@')
    ensures '@' !in t[i + 1..]
  {
    var a := t[..i];
    assert t == a + (['@'] + t[i + 1..]);
    CountOfAppend(a, ['@'] + t[i + 1..], '@');
    CountOfAppend(['@'], t[i + 1..], '@');
    CountOfAbsent(a, '@');
    assert CountOf(['@'], '@') == 1 by { assert ['@'][1..] == []; }
    if '@' in t[i + 1..] { CountOfPositive(t[i + 1..], '@'); }
  }

  lemma SplitPlain(t: string, i: nat, k: nat)
    requires NoSpace(t) && i < k < |t|
    requires '@' !in t[..i] && '@' !in t[i + 1..]
    ensures Plain(t[..i]) && Plain(t[i + 1..k]) && Plain(t[k + 1..])
  {
    assert t[i + 1..] == t[i + 1..k] + t[k..];
    assert t[k..] == [t[k]] + t[k + 1..];
    NoSpaceSlice(t, 0, i);
    NoSpaceSlice(t, i + 1, k);
    NoSpaceSlice(t, k + 1, |t|);
  }

  lemma EmailPatternImpliesMatches(t: string)
    requires EmailPattern(t)
    ensures EmailMatches(t)
  {
    var a: string, b: string, c: string :|
      |a| > 0 && |b| > 0 && |c| > 0 && Plain(a) && Plain(b) && Plain(c) &&
      t == a + ['@'] + b + ['.'] + c;
    PartsMatch(a, b, c);
  }

  lemma PartsMatch(a: string, b: string, c: string)
    requires |a| > 0 && |b| > 0 && |c| > 0 && Plain(a) && Plain(b) && Plain(c)
    ensures EmailMatches(a + ['@'] + b + ['.'] + c)
  {
    var t := a + ['@'] + b + ['.'] + c;
    var rest := b + ['.'] + c;
    assert t == a + (['@'] + rest);
    assert '@' !in rest;
    assert NoSpace(t) by {
      NoSpaceAppend(a, ['@']);
      NoSpaceAppend(a + ['@'], b);
      NoSpaceAppend(a + ['@'] + b, ['.']);
      NoSpaceAppend(a + ['@'] + b + ['.'], c);
    }
    EmailCount(t, a, rest);
    assert t[..|a|] == a;
    IndexOfPrefix(t, a, '@');
    DotAfterAt(t, a, b, c);
  }

  lemma DotAfterAt(t: string, a: string, b: string, c: string)
    requires |b| > 0 && |c| > 0 && t == a + ['@'] + b + ['.'] + c
    ensures |a| + 2 <= |t| - 1 && '.' in t[|a| + 2..|t| - 1]
  {
    var k := |a| + 1 + |b|;
    assert t[k] == '.';
    assert t[|a| + 2..|t| - 1][k - |a| - 2] == '.';
  }

  lemma EmailCount(t: string, a: string, rest: string)
    requires t == a + (['@'] + rest) && '@' !in a && '@' !in rest
    ensures CountOf(t, '@') == 1
  {
    CountOfAbsent(a, '@');
    CountOfAbsent(rest, '@');
    CountOfAppend(a, ['@'] + rest, '@');
    CountOfAppend(['@'], rest, '@');
    assert CountOf(['@'], '@') == 1 by { assert ['@'][1..] == []; }
  }

  lemma IndexOfPrefix(t: string, a: string, c: char)
    requires |a| < |t| && t[..|a|] == a && c !in a && t[|a|] == c
    ensures c in t && IndexOf(t, c) == |a|
  {
    assert c in t;
    var i := IndexOf(t, c);
    assert forall j :: 0 <= j < i ==> t[j] != c by {
      forall j | 0 <= j < i ensures t[j] != c { assert t[j] == t[..i][j]; }
    }
    assert forall j :: 0 <= j < |a| ==> t[j] != c by {
      forall j | 0 <= j < |a| ensures t[j] != c { assert t[j] == a[j]; }
    }
  }

  lemma EmailMatchesPattern(t: string)
    ensures EmailMatches(t) <==> EmailPattern(t)
  {
    if EmailMatches(t) { EmailMatchesImpliesPattern(t); }
    if EmailPattern(t) { EmailPatternImpliesMatches(t); }
  }

  // ---- validateField / validateForm ----

  const NameRequired := "Name is required."
  const NameTooShort := "Name must be at least 2 characters."
  const PhoneRequired := "Phone number is required."
  const PhoneInvalid := "Invalid phone number format."
  const EmailRequired := "Email is required."
  const EmailInvalid := "Invalid email address."

  /** The error message for one field given its trimmed value, "" when it is acceptable. */
  function FieldError(fieldName: string, t: string): (error: string)
    ensures fieldName == "name" ==>
      (error == "" <==> Utf16Length(t) >= 2) && (error == NameRequired <==> t == []) &&
      (error == NameTooShort <==> t != [] && Utf16Length(t) < 2)
    ensures fieldName == "phone" ==>
      (error == "" <==> PhonePattern(t)) && (error == PhoneRequired <==> t == []) &&
      (error == PhoneInvalid <==> t != [] && !PhonePattern(t))
    ensures fieldName == "email" ==>
      (error == "" <==> EmailPattern(t)) && (error == EmailRequired <==> t == []) &&
      (error == EmailInvalid <==> t != [] && !EmailPattern(t))
    ensures fieldName !in {"name", "phone", "email"} ==> error == ""
  {
    PhoneMatchesPattern(t);
    EmailMatchesPattern(t);
    if fieldName == "name" then
      if t == [] then NameRequired
      else if Utf16Length(t) < 2 then NameTooShort
      else ""
    else if fieldName == "phone" then
      if t == [] then PhoneRequired
      else if !PhoneMatches(t) then PhoneInvalid
      else ""
    else if fieldName == "email" then
      if t == [] then EmailRequired
      else if !EmailMatches(t) then EmailInvalid
      else ""
    else ""
  }

  /** `validateField`: every check looks at the trimmed value only. */
  function ValidateField(fieldName: string, value: string): (error: string)
    ensures fieldName == "name" ==>
      (error == "" <==> Utf16Length(Trim(value)) >= 2) &&
      (error == NameRequired <==> Trim(value) == []) &&
      (error == NameTooShort <==> Trim(value) != [] && Utf16Length(Trim(value)) < 2)
    ensures fieldName == "phone" ==>
      (error == "" <==> PhonePattern(Trim(value))) &&
      (error == PhoneRequired <==> Trim(value) == []) &&
      (error == PhoneInvalid <==> Trim(value) != [] && !PhonePattern(Trim(value)))
    ensures fieldName == "email" ==>
      (error == "" <==> EmailPattern(Trim(value))) &&
      (error == EmailRequired <==> Trim(value) == []) &&
      (error == EmailInvalid <==> Trim(value) != [] && !EmailPattern(Trim(value)))
    ensures fieldName !in {"name", "phone", "email"} ==> error == ""
  {
    FieldError(fieldName, Trim(value))
  }

  /** Padding a value with white space never changes its verdict. */
  lemma ValidateFieldIgnoresPadding(fieldName: string, p: string, value: string, q: string)
    requires AllSpace(p) && AllSpace(q)
    ensures ValidateField(fieldName, p + value + q) == ValidateField(fieldName, value)
  {
    TrimPadded(p, value, q);
  }

  datatype FormErrors = FormErrors(name: string, phone: string, email: string, address: string, general: string)

  /** `validateForm`: the per-field errors of the four inputs, and whether all of them are empty. */
  function ValidateForm(name: string, phone: string, email: string, address: string): (r: (bool, FormErrors))
    ensures r.1.name == ValidateField("name", name) && r.1.phone == ValidateField("phone", phone)
    ensures r.1.email == ValidateField("email", email)
    ensures r.1.general == ""
    ensures r.1.address == ""
    ensures r.0 <==> r.1.name == "" && r.1.phone == "" && r.1.email == ""
  {
    var errors := FormErrors(
      ValidateField("name", name), ValidateField("phone", phone),
      ValidateField("email", email), ValidateField("address", address), "");
    (!(errors.name != "" || errors.phone != "" || errors.email != "" || errors.address != ""), errors)
  }

  /** The form is accepted exactly when the trimmed name has two code units or more and the
      trimmed phone and e-mail match their patterns; the address never matters. */
  lemma ValidateFormAccepts(name: string, phone: string, email: string, address: string)
    ensures ValidateForm(name, phone, email, address).0 <==>
      Utf16Length(Trim(name)) >= 2 && PhonePattern(Trim(phone)) && EmailPattern(Trim(email))
  {
  }
}
