/** The two input-format rules of the signup and login controllers
    (controllers/users.js): the email pattern
    `^[a-zA-Z0-9._%+-]+@[a-zA-Z0-9.-]+\.[a-zA-Z]{2,}$` and the password
    pattern `^(?=.*[a-z])(?=.*[A-Z])(?=.*\d)[a-zA-Z\d@&!#_]{8,}$`.
    Each is given twice: as the language the regular expression denotes
    (a ghost predicate), and as a direct check; a lemma proves the two agree. */
module CredentialRules {
  import opened Results
  import opened Text

  predicate IsLower(c: char) { 'a' <= c <= 'z' }
  predicate IsUpper(c: char) { 'A' <= c <= 'Z' }
  predicate IsDigit(c: char) { '0' <= c <= '9' }
  predicate IsLetter(c: char) { IsLower(c) || IsUpper(c) }

  /** `[a-zA-Z0-9._%+-]` */
  predicate IsLocalChar(c: char) {
    IsLetter(c) || IsDigit(c) || c == '.' || c == '_' || c == '%' || c == '+' || c == '-'
  }

  /** `[a-zA-Z0-9.-]` */
  predicate IsDomainChar(c: char) {
    IsLetter(c) || IsDigit(c) || c == '.' || c == '-'
  }

  /** `[a-zA-Z\d@&!#_]` */
  predicate IsPasswordChar(c: char) {
    IsLetter(c) || IsDigit(c) || c == '@' || c == '&' || c == '!' || c == '#' || c == '_'
  }

  /** The code points `.` does not match in a JavaScript regular expression. */
  predicate IsLineTerminator(c: char) {
    c == '\n' || c == '\r' || c == '\U{2028}' || c == '\U{2029}'
  }

  // ---------------------------------------------------------------------
  // Email

  predicate LocalRun(s: string, lo: int, hi: int)
    requires 0 <= lo <= hi <= |s|
  {
    forall i | lo <= i < hi :: IsLocalChar(s[i])
  }

  predicate DomainRun(s: string, lo: int, hi: int)
    requires 0 <= lo <= hi <= |s|
  {
    forall i | lo <= i < hi :: IsDomainChar(s[i])
  }

  predicate LetterRun(s: string, lo: int, hi: int)
    requires 0 <= lo <= hi <= |s|
  {
    forall i | lo <= i < hi :: IsLetter(s[i])
  }

  /** `s` matches the email pattern with its `@` at `at` and the `.` before
      the top-level domain at `dot`. */
  ghost predicate EmailShape(s: string, at: int, dot: int) {
    && 1 <= at && at + 2 <= dot && dot + 3 <= |s|
    && s[at] == '@' && s[dot] == '.'
    && LocalRun(s, 0, at) && DomainRun(s, at + 1, dot) && LetterRun(s, dot + 1, |s|)
  }

  /** The language of the email pattern: a non-empty local part of local
      characters, `@`, a non-empty run of domain characters, a `.`, and at
      least two ASCII letters up to the end. */
  ghost predicate EmailPattern(s: string) {
    exists at, dot :: EmailShape(s, at, dot)
  }

  /** The first position of `c` in `s`. */
  function IndexOf(s: string, c: char): (r: Option<nat>)
    ensures r.None? ==> c !in s
    ensures r.Some? ==> r.value < |s| && s[r.value] == c && forall j | 0 <= j < r.value :: s[j] != c
  {
    if |s| == 0 then None
    else if s[0] == c then Some(0)
    else match IndexOf(s[1..], c)
      case None => None
      case Some(k) => Some(k + 1)
  }

  /** The last position of `c` in `s`. */
  function LastIndexOf(s: string, c: char): (r: Option<nat>)
    ensures r.None? ==> c !in s
    ensures r.Some? ==> r.value < |s| && s[r.value] == c && forall j | r.value < j < |s| :: s[j] != c
  {
    if |s| == 0 then None
    else if s[|s| - 1] == c then Some(|s| - 1)
    else
      var init := s[..|s| - 1];
      match LastIndexOf(init, c)
      case None => assert s == init + [s[|s| - 1]]; None
      case Some(k) => Some(k)
  }

  /** The check the email pattern performs, done by locating the first `@`
      and the last `.`. */
  predicate IsValidEmail(s: string) {
    match IndexOf(s, '@')
    case None => false
    case Some(at) =>
      && 1 <= at
      && LocalRun(s, 0, at)
      && DomainRun(s, at + 1, |s|)
      && match LastIndexOf(s, '.')
         case None => false
         case Some(dot) => at + 2 <= dot && dot + 3 <= |s| && LetterRun(s, dot + 1, |s|)
  }

  lemma EmailCheckSound(s: string)
    requires IsValidEmail(s)
    ensures EmailPattern(s)
  {
    var at := IndexOf(s, '@').value;
    var dot := LastIndexOf(s, '.').value;
    assert EmailShape(s, at, dot);
  }

  /** A local part holds no `@`, so the `@` after it is the first one. */
  lemma FirstAtSign(s: string, at: int)
    requires 0 <= at < |s| && s[at] == '@' && LocalRun(s, 0, at)
    ensures IndexOf(s, '@') == Some(at)
  {
    var r := IndexOf(s, '@');
    assert '@' in s by { assert s[at] == '@'; }
  }

  /** Letters hold no `.`, so the `.` before them is the last one. */
  lemma LastDotSign(s: string, dot: int)
    requires 0 <= dot < |s| && s[dot] == '.' && LetterRun(s, dot + 1, |s|)
    ensures LastIndexOf(s, '.') == Some(dot)
  {
    var r := LastIndexOf(s, '.');
    assert '.' in s by { assert s[dot] == '.'; }
  }

  lemma EmailCheckComplete(s: string)
    requires EmailPattern(s)
    ensures IsValidEmail(s)
  {
    var at, dot :| EmailShape(s, at, dot);
    FirstAtSign(s, at);
    LastDotSign(s, dot);
    assert DomainRun(s, at + 1, |s|) by {
      forall i | at + 1 <= i < |s| ensures IsDomainChar(s[i]) {
        if i > dot { assert IsLetter(s[i]); }
      }
    }
  }

  /** The direct check accepts exactly the strings the email pattern matches. */
  lemma EmailCheckMatchesPattern(s: string)
    ensures IsValidEmail(s) <==> EmailPattern(s)
  {
    if IsValidEmail(s) { EmailCheckSound(s); }
    if EmailPattern(s) { EmailCheckComplete(s); }
  }

  /** Every character class of the pattern contains the lower-case partner of
      each of its letters, so lower-casing a valid email keeps it valid: the
      address that is stored and looked up still has the accepted shape. */
  lemma LowerKeepsEmailValid(s: string)
    requires IsValidEmail(s)
    ensures IsValidEmail(ToLower(s))
  {
    EmailCheckSound(s);
    var at, dot :| EmailShape(s, at, dot);
    var t := ToLower(s);
    assert LocalRun(t, 0, at) by {
      forall i | 0 <= i < at ensures IsLocalChar(t[i]) { assert t[i] == LowerChar(s[i]); }
    }
    assert DomainRun(t, at + 1, dot) by {
      forall i | at + 1 <= i < dot ensures IsDomainChar(t[i]) { assert t[i] == LowerChar(s[i]); }
    }
    assert LetterRun(t, dot + 1, |t|) by {
      forall i | dot + 1 <= i < |t| ensures IsLetter(t[i]) { assert t[i] == LowerChar(s[i]); }
    }
    assert t[at] == '@' && t[dot] == '.' by {
      assert t[at] == LowerChar(s[at]) && t[dot] == LowerChar(s[dot]);
    }
    assert EmailShape(t, at, dot);
    EmailCheckComplete(t);
  }

  // ---------------------------------------------------------------------
  // Password

  /** `(?=.*X)` at the start of the input: some character of class X occurs
      with no line terminator before it. */
  ghost predicate LookaheadLower(p: string) {
    exists i | 0 <= i < |p| :: IsLower(p[i]) && forall j | 0 <= j < i :: !IsLineTerminator(p[j])
  }
  ghost predicate LookaheadUpper(p: string) {
    exists i | 0 <= i < |p| :: IsUpper(p[i]) && forall j | 0 <= j < i :: !IsLineTerminator(p[j])
  }
  ghost predicate LookaheadDigit(p: string) {
    exists i | 0 <= i < |p| :: IsDigit(p[i]) && forall j | 0 <= j < i :: !IsLineTerminator(p[j])
  }

  /** The language of the password pattern. */
  ghost predicate PasswordPattern(p: string) {
    && LookaheadLower(p) && LookaheadUpper(p) && LookaheadDigit(p)
    && |p| >= 8
    && forall i | 0 <= i < |p| :: IsPasswordChar(p[i])
  }

  /** The password rule: at least eight characters, all from
      `[a-zA-Z0-9@&!#_]`, with a lower-case letter, an upper-case letter
      and a digit among them. */
  predicate IsValidPassword(p: string) {
    && |p| >= 8
    && (forall i | 0 <= i < |p| :: IsPasswordChar(p[i]))
    && (exists i | 0 <= i < |p| :: IsLower(p[i]))
    && (exists i | 0 <= i < |p| :: IsUpper(p[i]))
    && (exists i | 0 <= i < |p| :: IsDigit(p[i]))
  }

  /** The direct check accepts exactly the strings the password pattern
      matches: since every character must be a password character, none is a
      line terminator, and each lookahead reduces to "occurs somewhere". */
  lemma PasswordCheckMatchesPattern(p: string)
    ensures IsValidPassword(p) <==> PasswordPattern(p)
  {
    if IsValidPassword(p) {
      var l :| 0 <= l < |p| && IsLower(p[l]);
      var u :| 0 <= u < |p| && IsUpper(p[u]);
      var d :| 0 <= d < |p| && IsDigit(p[d]);
      assert forall j | 0 <= j < |p| :: !IsLineTerminator(p[j]);
      assert IsLower(p[l]) && forall j | 0 <= j < l :: !IsLineTerminator(p[j]);
      assert IsUpper(p[u]) && forall j | 0 <= j < u :: !IsLineTerminator(p[j]);
      assert IsDigit(p[d]) && forall j | 0 <= j < d :: !IsLineTerminator(p[j]);
    }
  }

  /** A valid password never contains `$`. */
  lemma ValidPasswordHasNoDollar(p: string)
    requires IsValidPassword(p)
    ensures '$' !in p
  {
  }

  /** A password the pattern accepts never contains U+0000, the byte on
      which bcryptjs's cyclic key reading makes different passwords collide. */
  lemma PatternPasswordHasNoNul(p: string)
    requires PasswordPattern(p)
    ensures '\0' !in p
  {
  }
}
