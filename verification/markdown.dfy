/**
 * The pure string helpers of the Telegram service: escaping user-supplied
 * text for Telegram's legacy Markdown, the broader "rough" Markdown escape
 * used for API error texts, and the display name built from a user profile.
 */
module Markdown {

  import opened Optional

  /** Which characters an escape function protects with a backslash. */
  datatype Dialect =
    | Legacy  // `*` `_` `` ` `` `[` — the specials of Telegram's legacy Markdown
    | Rough   // backslash, `` ` `` `*` `_` `[` `]` `{` `}` `(` `)` `#` `+` `-` `.` `!`

  predicate IsSpecial(d: Dialect, c: char) {
    match d
    case Legacy => c == '*' || c == '_' || c == '`' || c == '['
    case Rough =>
      || c == '\\' || c == '`' || c == '*' || c == '_' || c == '[' || c == ']'
      || c == '{' || c == '}' || c == '(' || c == ')' || c == '#' || c == '+'
      || c == '-' || c == '.' || c == '!'
  }

  function CountSpecial(d: Dialect, s: string): (n: nat)
    ensures n <= |s|
  {
    if s == [] then 0 else (if IsSpecial(d, s[0]) then 1 else 0) + CountSpecial(d, s[1..])
  }

  /** The replacement for one character: a backslash before it when it is special. */
  function EscapeChar(d: Dialect, c: char): string {
    if IsSpecial(d, c) then ['\\', c] else [c]
  }

  /** Every character of `s` in order, each special one preceded by a backslash. */
  function Escape(d: Dialect, s: string): (r: string)
    ensures |r| == |s| + CountSpecial(d, s)
  {
    if s == [] then [] else EscapeChar(d, s[0]) + Escape(d, s[1..])
  }

  /**
   * The inverse of `Escape`: a backslash that stands before a special
   * character is dropped, every other character is copied.
   */
  function Unescape(d: Dialect, t: string): (r: string)
    ensures |r| <= |t|
  {
    if t == [] then []
    else if |t| >= 2 && t[0] == '\\' && IsSpecial(d, t[1]) then [t[1]] + Unescape(d, t[2..])
    else [t[0]] + Unescape(d, t[1..])
  }

  /** Escaping works character by character: it distributes over concatenation. */
  lemma {:induction false} EscapeAppend(d: Dialect, a: string, b: string)
    ensures Escape(d, a + b) == Escape(d, a) + Escape(d, b)
  {
    if a == [] {
      assert a + b == b;
    } else {
      assert (a + b)[1..] == a[1..] + b;
      EscapeAppend(d, a[1..], b);
    }
  }

  /** An escaped string never starts with a special character unless backslash itself is special. */
  lemma {:induction false} EscapeHeadNotSpecial(d: Dialect, s: string)
    requires !IsSpecial(d, '\\')
    ensures Escape(d, s) == [] || !IsSpecial(d, Escape(d, s)[0])
  {
  }

  /** Removing the inserted backslashes gives back the input. */
  lemma {:induction false} UnescapeEscape(d: Dialect, s: string)
    ensures Unescape(d, Escape(d, s)) == s
  {
    if s != [] {
      var c := s[0];
      var tail := Escape(d, s[1..]);
      UnescapeEscape(d, s[1..]);
      if IsSpecial(d, c) {
        var t := ['\\', c] + tail;
        assert Escape(d, s) == t;
        assert t[2..] == tail;
      } else {
        var t := [c] + tail;
        assert Escape(d, s) == t;
        assert t[1..] == tail;
        if c == '\\' {
          EscapeHeadNotSpecial(d, s[1..]);
        }
      }
    }
  }

  /** Escaping is injective: two different texts never escape to the same string. */
  lemma EscapeInjective(d: Dialect, a: string, b: string)
    requires Escape(d, a) == Escape(d, b)
    ensures a == b
  {
    UnescapeEscape(d, a);
    UnescapeEscape(d, b);
  }

  /**
   * `escapeMarkdownLegacy`: the empty string for a missing or empty text,
   * otherwise the text with each of `*` `_` `` ` `` `[` preceded by a
   * backslash; `]`, `!` and every other character are copied as they are.
   */
  function EscapeMarkdownLegacy(text: Option<string>): (r: string)
    ensures text.None? ==> r == ""
    ensures text.Some? ==> |r| == |text.value| + CountSpecial(Legacy, text.value)
    ensures text.Some? ==> Unescape(Legacy, r) == text.value
  {
    match text
    case None => ""
    case Some(s) =>
      UnescapeEscape(Legacy, s);
      if s == "" then "" else Escape(Legacy, s)
  }

  /** `[` and `_` gain a backslash; `]` and `!` are copied as they are. */
  lemma LegacyEscapeExample()
    ensures EscapeMarkdownLegacy(Some("[l]_!")) == "\\[l]\\_!"
  {
    assert Escape(Legacy, "") == "";
    assert "!"[1..] == "";
    assert Escape(Legacy, "!") == "!";
    assert "_!"[1..] == "!";
    assert Escape(Legacy, "_!") == "\\_!";
    assert "]_!"[1..] == "_!";
    assert Escape(Legacy, "]_!") == "]\\_!";
    assert "l]_!"[1..] == "]_!";
    assert Escape(Legacy, "l]_!") == "l]\\_!";
    assert "[l]_!"[1..] == "l]_!";
  }

  /** `escapeMarkdown`: the same shape with the larger set, backslash included. */
  function EscapeMarkdown(text: Option<string>): (r: string)
    ensures text.None? ==> r == ""
    ensures text.Some? ==> |r| == |text.value| + CountSpecial(Rough, text.value)
    ensures text.Some? ==> Unescape(Rough, r) == text.value
  {
    match text
    case None => ""
    case Some(s) =>
      UnescapeEscape(Rough, s);
      if s == "" then "" else Escape(Rough, s)
  }

  /** Concatenation of `parts` separated by single spaces (JavaScript `parts.join(' ')`). */
  function JoinWithSpace(parts: seq<string>): string {
    if parts == [] then ""
    else if |parts| == 1 then parts[0]
    else parts[0] + " " + JoinWithSpace(parts[1..])
  }

  /** A JavaScript truthy string: present and non-empty. */
  predicate Present(s: Option<string>) {
    s.Some? && s.value != ""
  }

  /** The profile fields `fullname` looks at. */
  datatype Profile = Profile(firstName: Option<string>, lastName: Option<string>)

  /**
   * `fullname`: the present non-empty first and last names, in that order,
   * joined by one space.
   */
  function Fullname(p: Profile): (r: string)
    ensures r == "" <==> !Present(p.firstName) && !Present(p.lastName)
    ensures Present(p.firstName) && Present(p.lastName) ==> r == p.firstName.value + " " + p.lastName.value
    ensures Present(p.firstName) && !Present(p.lastName) ==> r == p.firstName.value
    ensures !Present(p.firstName) && Present(p.lastName) ==> r == p.lastName.value
  {
    var first := if Present(p.firstName) then [p.firstName.value] else [];
    var last := if Present(p.lastName) then [p.lastName.value] else [];
    var parts := first + last;
    assert |parts| == 2 ==> parts[1..] == [p.lastName.value] && JoinWithSpace(parts[1..]) == p.lastName.value;
    JoinWithSpace(parts)
  }
}
