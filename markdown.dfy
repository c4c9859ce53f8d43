/**
 * `escape_markdown`: a backslash is put before every occurrence of the 18
 * characters Telegram's MarkdownV2 reserves, by one `str.replace` per
 * character in list order.
 */
module Markdown {

  /** The reserved characters, in the order they are replaced. */
  const RESERVED: seq<char> :=
    ['_', '*', '[', ']', '(', ')', '~', '`', '>', '#', '+', '-', '=', '|', '{', '}', '.', '!']

  predicate IsReserved(c: char) {
    c in RESERVED
  }

  /** One character, escaped when it is among `chars`. */
  function EscapeChar(c: char, chars: seq<char>): string {
    if c in chars then ['\\', c] else [c]
  }

  /** `s` with every character among `chars` preceded by a backslash, all else copied in order. */
  function EscapeAmong(s: string, chars: seq<char>): string {
    if s == [] then [] else EscapeChar(s[0], chars) + EscapeAmong(s[1..], chars)
  }

  /** The escaped text: each reserved character gets exactly one backslash before it. */
  function Escape(s: string): string {
    EscapeAmong(s, RESERVED)
  }

  /** `s.replace(c, rep)` for a single character `c`. */
  function Replace(s: string, c: char, rep: string): string {
    if s == [] then [] else (if s[0] == c then rep else [s[0]]) + Replace(s[1..], c, rep)
  }

  lemma {:induction false} ReplaceAppend(a: string, b: string, c: char, rep: string)
    ensures Replace(a + b, c, rep) == Replace(a, c, rep) + Replace(b, c, rep)
    decreases |a|
  {
    if a != [] {
      assert (a + b)[1..] == a[1..] + b;
      ReplaceAppend(a[1..], b, c, rep);
    } else {
      assert a + b == b;
    }
  }

  lemma {:induction false} EscapeAmongNothing(s: string)
    ensures EscapeAmong(s, []) == s
    decreases |s|
  {
    if s != [] {
      EscapeAmongNothing(s[1..]);
    }
  }

  /**
   * Replacing a further character `c` in text already escaped for `chars`
   * escapes `c` as well, and re-escapes nothing: the inserted backslashes are
   * not `c`, and neither is any character escaped earlier.
   */
  lemma {:induction false} ReplaceExtendsEscape(s: string, chars: seq<char>, c: char)
    requires c != '\\' && c !in chars
    ensures Replace(EscapeAmong(s, chars), c, ['\\', c]) == EscapeAmong(s, chars + [c])
    decreases |s|
  {
    if s != [] {
      ReplaceAppend(EscapeChar(s[0], chars), EscapeAmong(s[1..], chars), c, ['\\', c]);
      ReplaceExtendsEscape(s[1..], chars, c);
      if s[0] in chars {
        assert Replace(['\\', s[0]], c, ['\\', c]) == ['\\', s[0]];
      } else {
        assert Replace([s[0]], c, ['\\', c]) == EscapeChar(s[0], chars + [c]);
      }
    }
  }

  /** `escape_markdown`: the replace loop over the reserved characters. */
  method EscapeMarkdown(text: string) returns (escaped: string)
    ensures escaped == Escape(text)
  {
    escaped := text;
    EscapeAmongNothing(text);
    for i := 0 to |RESERVED|
      invariant escaped == EscapeAmong(text, RESERVED[..i])
    {
      var c := RESERVED[i];
      assert c != '\\' && c !in RESERVED[..i];
      ReplaceExtendsEscape(text, RESERVED[..i], c);
      escaped := Replace(escaped, c, ['\\', c]);
      assert RESERVED[..i] + [c] == RESERVED[..i + 1];
    }
    assert RESERVED[..|RESERVED|] == RESERVED;
  }

  function CountReserved(s: string): nat {
    if s == [] then 0 else (if IsReserved(s[0]) then 1 else 0) + CountReserved(s[1..])
  }

  /** Escaping adds exactly one character per reserved character. */
  lemma {:induction false} EscapeLength(s: string)
    ensures |Escape(s)| == |s| + CountReserved(s)
    decreases |s|
  {
    if s != [] {
      EscapeLength(s[1..]);
    }
  }

  /** Deletes each backslash that stands before a reserved character. */
  function Unescape(s: string): string
    decreases |s|
  {
    if s == [] then []
    else if |s| >= 2 && s[0] == '\\' && IsReserved(s[1]) then [s[1]] + Unescape(s[2..])
    else [s[0]] + Unescape(s[1..])
  }

  lemma EscapeHead(s: string)
    ensures Escape(s) == [] || !IsReserved(Escape(s)[0])
  {
  }

  /** Deleting the inserted backslashes gives back the original text. */
  lemma {:induction false} UnescapeEscape(s: string)
    ensures Unescape(Escape(s)) == s
    decreases |s|
  {
    if s != [] {
      var e := Escape(s);
      var rest := Escape(s[1..]);
      UnescapeEscape(s[1..]);
      if IsReserved(s[0]) {
        assert e == ['\\', s[0]] + rest;
        assert e[2..] == rest;
      } else {
        assert e == [s[0]] + rest;
        EscapeHead(s[1..]);
        assert e[1..] == rest;
      }
    }
  }

}
