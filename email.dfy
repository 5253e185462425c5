/** `isValidEmail` (api/index.js): the regular expression
    `^[^\s@]+@[^\s@]+\.[^\s@]+$` tested against the email. */
module Email {

  /** The characters JavaScript's `\s` matches. */
  predicate IsSpace(c: char)
  {
    || c == ' ' || c == '\t' || c == '\n' || c == '\U{000B}' || c == '\U{000C}' || c == '\r'
    || c == '\U{00A0}' || c == '\U{1680}' || ('\U{2000}' <= c <= '\U{200A}')
    || c == '\U{2028}' || c == '\U{2029}' || c == '\U{202F}' || c == '\U{205F}'
    || c == '\U{3000}' || c == '\U{FEFF}'
  }

  /** A character of the class `[^\s@]`. */
  predicate PartChar(c: char)
  {
    !IsSpace(c) && c != '@'
  }

  /** What the regular expression accepts, stated by positions: an `@` at
      `at` and a `.` at `dot` split the string into three non-empty parts, and
      no character other than that `@` is white space or `@` (the `.` itself
      is in the class, so the middle part may hold further dots). */
  ghost predicate EmailShape(s: string)
  {
    exists at: nat, dot: nat ::
      && 0 < at && at + 1 < dot && dot + 1 < |s|
      && s[at] == '@' && s[dot] == '.'
      && forall k :: 0 <= k < |s| && k != at ==> PartChar(s[k])
  }

  /** The index of the first `@`. */
  function FirstAt(s: string): (r: int)
    ensures -1 <= r < |s|
    ensures r >= 0 ==> s[r] == '@' && forall k :: 0 <= k < r ==> s[k] != '@'
    ensures r == -1 ==> forall k :: 0 <= k < |s| ==> s[k] != '@'
  {
    if s == [] then -1
    else if s[0] == '@' then 0
    else
      var r := FirstAt(s[1..]);
      assert forall k :: 1 <= k < |s| ==> s[k] == s[1..][k - 1];
      if r == -1 then -1 else r + 1
  }

  /** The string splits into a valid address around the `@` at `at`: the
      local part before it is non-empty, no other character is white space
      or `@`, and a `.` stands strictly inside the domain after it, neither
      first nor last. */
  predicate ValidAround(s: string, at: int)
  {
    && 0 < at < |s|
    && (forall k :: 0 <= k < |s| && k != at ==> PartChar(s[k]))
    && exists dot :: at + 1 < dot < |s| - 1 && s[dot] == '.'
  }

  /** Splitting at the first `@` finds a valid address exactly when the
      string has the shape the regular expression accepts. */
  lemma ValidAroundFirstAt(s: string)
    ensures ValidAround(s, FirstAt(s)) <==> EmailShape(s)
  {
    var at := FirstAt(s);
    if ValidAround(s, at) {
      var dot :| at + 1 < dot < |s| - 1 && s[dot] == '.';
      var a: nat, d: nat := at, dot;
      assert 0 < a && a + 1 < d && d + 1 < |s| && s[a] == '@' && s[d] == '.';
    }
    if EmailShape(s) {
      var a: nat, d: nat :| && 0 < a && a + 1 < d && d + 1 < |s|
                            && s[a] == '@' && s[d] == '.'
                            && forall k :: 0 <= k < |s| && k != a ==> PartChar(s[k]);
      assert 0 <= at <= a;
    }
  }

  /** `isValidEmail(email)`: it accepts exactly the strings the regular
      expression accepts. */
  function IsValidEmail(s: string): (ok: bool)
    ensures ok <==> EmailShape(s)
  {
    ValidAroundFirstAt(s);
    ValidAround(s, FirstAt(s))
  }
}
