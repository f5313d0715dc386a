/**
 * The validation rules of `CreateUserDto` (src/users/dto/create-user.dto.ts):
 * non-empty names, the email pattern `^[^\s@]+@[^\s@]+\.[^\s@]+$`, the password
 * length bounds and pattern, and the optional boolean `isAdmin`.
 *
 * Each regular expression is given twice: as the decomposition the pattern
 * describes (a ghost predicate) and as a single left-to-right scan, with a
 * lemma that the two agree.
 */
module UserDto {
  import opened Wrappers

  /** A JSON value as the request body may carry it for `isAdmin`. */
  datatype JsonValue = JsonBool(b: bool) | JsonString(s: string) | JsonNumber(n: int) | JsonNull

  datatype CreateUserDto = CreateUserDto(
    firstname: string,
    lastname: string,
    email: string,
    password: string,
    isAdmin: Option<JsonValue>)

  // -------------------------------------------------------- character sets

  /** `\s` in a JavaScript regular expression: the white-space and line-terminator characters. */
  predicate IsSpace(c: char) {
    c == '\t' || c == '\n' || c == '\U{000B}' || c == '\U{000C}' || c == '\r' || c == ' '
    || c == '\U{00A0}' || c == '\U{1680}' || ('\U{2000}' <= c <= '\U{200A}')
    || c == '\U{2028}' || c == '\U{2029}' || c == '\U{202F}' || c == '\U{205F}'
    || c == '\U{3000}' || c == '\U{FEFF}'
  }

  /** `[^\s@]`. */
  predicate EmailChar(c: char) {
    !IsSpace(c) && c != '@'
  }

  /** `[^\s@]+` over a whole piece. */
  predicate EmailPiece(s: string) {
    s != [] && forall i :: 0 <= i < |s| ==> EmailChar(s[i])
  }

  // ----------------------------------------------------------------- email

  /** The pattern read as a decomposition: `local@host.rest`, each piece in `[^\s@]+`. */
  ghost predicate EmailPattern(s: string) {
    exists at, dot :: 0 <= at < dot < |s| && s[at] == '@' && s[dot] == '.'
      && EmailPiece(s[..at]) && EmailPiece(s[at + 1..dot]) && EmailPiece(s[dot + 1..])
  }

  /** The number of occurrences of `c` in `s`. */
  function Count(s: string, c: char): (n: nat)
    ensures n <= |s|
    ensures n == 0 <==> c !in s
    decreases |s|
  {
    if s == [] then 0 else (if s[0] == c then 1 else 0) + Count(s[1..], c)
  }

  /** The index of the first `c` in `s`. */
  function IndexOf(s: string, c: char): (i: nat)
    requires c in s
    ensures i < |s| && s[i] == c && c !in s[..i]
    decreases |s|
  {
    if s[0] == c then 0
    else
      assert s[1..][..IndexOf(s[1..], c)] == s[..IndexOf(s[1..], c) + 1][1..];
      1 + IndexOf(s[1..], c)
  }

  /** No character of `s` is white space. */
  predicate NoSpace(s: string) {
    forall i :: 0 <= i < |s| ==> !IsSpace(s[i])
  }

  /**
   * The scan: no white space, exactly one `@`, something before it, and a `.`
   * with something on both sides of it after the `@`.
   */
  predicate ValidEmail(s: string) {
    && NoSpace(s)
    && Count(s, '@') == 1
    && var at := IndexOf(s, '@');
       at > 0 && exists dot :: at + 1 < dot < |s| - 1 && s[dot] == '.'
  }

  lemma {:induction false} CountAppend(a: string, b: string, c: char)
    ensures Count(a + b, c) == Count(a, c) + Count(b, c)
    decreases |a|
  {
    if a == [] {
      assert a + b == b;
    } else {
      CountAppend(a[1..], b, c);
      assert (a + b)[0] == a[0];
      assert (a + b)[1..] == a[1..] + b;
    }
  }

  /** A piece of `s` in `[^\s@]+` puts neither white space nor `@` at any of its positions. */
  lemma PieceChars(s: string, lo: nat, hi: nat)
    requires lo <= hi <= |s| && EmailPiece(s[lo..hi])
    ensures forall i :: lo <= i < hi ==> EmailChar(s[i])
  {
    assert forall i :: lo <= i < hi ==> s[i] == s[lo..hi][i - lo];
  }

  /** Conversely, a stretch of `s` without white space or `@` is a piece. */
  lemma CharsPiece(s: string, lo: nat, hi: nat)
    requires lo < hi <= |s| && forall i :: lo <= i < hi ==> EmailChar(s[i])
    ensures EmailPiece(s[lo..hi])
  {
    assert forall i :: 0 <= i < hi - lo ==> s[lo..hi][i] == s[lo + i];
  }

  /** A character found at exactly one position is counted once. */
  lemma {:induction false} CountOnlyAt(s: string, c: char, at: nat)
    requires at < |s| && s[at] == c
    requires forall i :: 0 <= i < |s| && i != at ==> s[i] != c
    ensures Count(s, c) == 1
    decreases |s|
  {
    assert forall i :: 0 <= i < |s| - 1 ==> s[1..][i] == s[i + 1];
    if at > 0 {
      CountOnlyAt(s[1..], c, at - 1);
    }
  }

  /** After the only occurrence of `c` there is no other. */
  lemma NoneAfterOnly(s: string, c: char, at: nat)
    requires at < |s| && s[at] == c && Count(s, c) == 1
    ensures forall i :: at < i < |s| ==> s[i] != c
  {
    assert s == s[..at + 1] + s[at + 1..];
    CountAppend(s[..at + 1], s[at + 1..], c);
    assert s[..at + 1][at] == c;
    assert forall i :: at < i < |s| ==> s[i] == s[at + 1..][i - at - 1];
  }

  lemma IndexOfIsFirst(s: string, c: char, i: nat)
    requires i < |s| && s[i] == c && forall k :: 0 <= k < i ==> s[k] != c
    ensures IndexOf(s, c) == i
  {
    var k := IndexOf(s, c);
    assert forall m :: 0 <= m < k ==> s[..k][m] == s[m];
  }

  lemma PatternGivesValidEmail(s: string, at: nat, dot: nat)
    requires at < dot < |s| && s[at] == '@' && s[dot] == '.'
    requires EmailPiece(s[..at]) && EmailPiece(s[at + 1..dot]) && EmailPiece(s[dot + 1..])
    ensures ValidEmail(s)
  {
    PieceChars(s, 0, at);
    PieceChars(s, at + 1, dot);
    PieceChars(s, dot + 1, |s|);
    assert forall i :: 0 <= i < |s| && i != at ==> EmailChar(s[i]) || i == dot;
    CountOnlyAt(s, '@', at);
    IndexOfIsFirst(s, '@', at);
  }

  lemma ValidEmailGivesPattern(s: string)
    requires ValidEmail(s)
    ensures EmailPattern(s)
  {
    var at := IndexOf(s, '@');
    var dot :| at + 1 < dot < |s| - 1 && s[dot] == '.';
    assert forall i :: 0 <= i < at ==> s[i] == s[..at][i];
    NoneAfterOnly(s, '@', at);
    CharsPiece(s, 0, at);
    CharsPiece(s, at + 1, dot);
    CharsPiece(s, dot + 1, |s|);
  }

  /** The scan accepts exactly the strings the pattern matches. */
  lemma ValidEmailIffPattern(s: string)
    ensures ValidEmail(s) <==> EmailPattern(s)
  {
    if EmailPattern(s) {
      var at, dot :| 0 <= at < dot < |s| && s[at] == '@' && s[dot] == '.'
        && EmailPiece(s[..at]) && EmailPiece(s[at + 1..dot]) && EmailPiece(s[dot + 1..]);
      PatternGivesValidEmail(s, at, dot);
    }
    if ValidEmail(s) {
      ValidEmailGivesPattern(s);
    }
  }

  /** An accepted email contains exactly one `@`, with something on both sides. */
  lemma AcceptedEmailHasOneAt(s: string)
    requires EmailPattern(s)
    ensures Count(s, '@') == 1
    ensures s[0] != '@' && s[|s| - 1] != '@'
  {
    ValidEmailIffPattern(s);
  }

  // -------------------------------------------------------------- password

  predicate Lower(c: char) { 'a' <= c <= 'z' }
  predicate Upper(c: char) { 'A' <= c <= 'Z' }
  predicate Digit(c: char) { '0' <= c <= '9' }
  /** `[@$!%*?&]`. */
  predicate Special(c: char) {
    c == '@' || c == '$' || c == '!' || c == '%' || c == '*' || c == '?' || c == '&'
  }
  /** `[A-Za-z\d@$!%*?&]`. */
  predicate PasswordChar(c: char) { Lower(c) || Upper(c) || Digit(c) || Special(c) }

  /** `.` in a JavaScript regular expression: anything but a line terminator. */
  predicate NotLineTerminator(c: char) {
    c != '\n' && c != '\r' && c != '\U{2028}' && c != '\U{2029}'
  }

  /** `(?=.*[kind])` at the start: some character of the kind after line-terminator-free text. */
  ghost predicate LookaheadFinds(s: string, kind: char -> bool) {
    exists i :: 0 <= i < |s| && kind(s[i]) && forall k :: 0 <= k < i ==> NotLineTerminator(s[k])
  }

  /** The password pattern as its four lookaheads and its body `[A-Za-z\d@$!%*?&]{8,16}`. */
  ghost predicate PasswordPattern(s: string) {
    && LookaheadFinds(s, Lower) && LookaheadFinds(s, Upper)
    && LookaheadFinds(s, Digit) && LookaheadFinds(s, Special)
    && 8 <= |s| <= 16 && forall i :: 0 <= i < |s| ==> PasswordChar(s[i])
  }

  /** Some character of `s` is of the kind. */
  function Any(s: string, kind: char -> bool): (r: bool)
    ensures r <==> exists i :: 0 <= i < |s| && kind(s[i])
    decreases |s|
  {
    if s == [] then false
    else
      assert forall i :: 0 < i < |s| ==> s[i] == s[1..][i - 1];
      kind(s[0]) || Any(s[1..], kind)
  }

  /** Every character of `s` is of the kind. */
  function All(s: string, kind: char -> bool): (r: bool)
    ensures r <==> forall i :: 0 <= i < |s| ==> kind(s[i])
    decreases |s|
  {
    if s == [] then true
    else
      assert forall i :: 0 < i < |s| ==> s[i] == s[1..][i - 1];
      kind(s[0]) && All(s[1..], kind)
  }

  /** The `@Matches` check on `password`, as scans of the string. */
  predicate ValidPassword(s: string) {
    && 8 <= |s| <= 16 && All(s, PasswordChar)
    && Any(s, Lower) && Any(s, Upper) && Any(s, Digit) && Any(s, Special)
  }

  /** When every character is in the body's class, a lookahead just asks for one character of its kind. */
  lemma LookaheadOverAllowed(s: string, kind: char -> bool)
    requires forall i :: 0 <= i < |s| ==> PasswordChar(s[i])
    ensures LookaheadFinds(s, kind) <==> exists i :: 0 <= i < |s| && kind(s[i])
  {
    assert forall i :: 0 <= i < |s| ==> NotLineTerminator(s[i]);
  }

  /** The scan accepts exactly the strings the pattern matches. */
  lemma ValidPasswordIffPattern(s: string)
    ensures ValidPassword(s) <==> PasswordPattern(s)
  {
    if All(s, PasswordChar) {
      LookaheadOverAllowed(s, Lower);
      LookaheadOverAllowed(s, Upper);
      LookaheadOverAllowed(s, Digit);
      LookaheadOverAllowed(s, Special);
    }
  }

  /** An accepted password has one character of each of the four kinds and none outside them. */
  lemma AcceptedPasswordKinds(s: string)
    requires ValidPassword(s)
    ensures exists i :: 0 <= i < |s| && Lower(s[i])
    ensures exists i :: 0 <= i < |s| && Upper(s[i])
    ensures exists i :: 0 <= i < |s| && Digit(s[i])
    ensures exists i :: 0 <= i < |s| && Special(s[i])
    ensures forall i :: 0 <= i < |s| ==> PasswordChar(s[i])
  {
  }

  // ------------------------------------------------------------- the DTO

  /** `@IsOptional() @IsBoolean()`: absent, `null` or a boolean. */
  predicate ValidIsAdmin(v: Option<JsonValue>) {
    v.None? || v.value.JsonNull? || v.value.JsonBool?
  }

  /**
   * Every decorator of the class: `@IsNotEmpty` on the names, `@Matches` on the
   * email, `@MinLength`/`@MaxLength`/`@Matches` on the password, and `isAdmin`.
   */
  predicate Accepts(dto: CreateUserDto) {
    && dto.firstname != "" && dto.lastname != ""
    && ValidEmail(dto.email)
    && 8 <= |dto.password| <= 16 && ValidPassword(dto.password)
    && ValidIsAdmin(dto.isAdmin)
  }

  /** What an accepted body guarantees, stated through the patterns themselves. */
  lemma AcceptedDto(dto: CreateUserDto)
    requires Accepts(dto)
    ensures dto.firstname != "" && dto.lastname != ""
    ensures EmailPattern(dto.email) && Count(dto.email, '@') == 1
    ensures PasswordPattern(dto.password)
    ensures dto.isAdmin.Some? && !dto.isAdmin.value.JsonNull? ==> dto.isAdmin.value.JsonBool?
  {
    ValidEmailIffPattern(dto.email);
    ValidPasswordIffPattern(dto.password);
  }

  /** The `MinLength`/`MaxLength` checks add nothing once the password pattern holds. */
  lemma LengthChecksRedundant(dto: CreateUserDto)
    ensures Accepts(dto) <==>
      dto.firstname != "" && dto.lastname != "" && ValidEmail(dto.email)
      && ValidPassword(dto.password) && ValidIsAdmin(dto.isAdmin)
  {
  }
}
