/** The power-operator rewrite `s.replace("^", "**")`, which both equation
    converters of the calculator apply first. */
module Caret {

  /** Python's `s.replace("^", "**")`: every caret becomes the two-character
      power operator `**`; every other character is kept, in order. */
  function ReplaceCaret(s: string): (r: string)
    ensures '^' !in r
    ensures |r| >= |s|
  {
    if s == [] then []
    else (if s[0] == '^' then "**" else [s[0]]) + ReplaceCaret(s[1..])
  }

  /** Associativity of `+` on strings, stated once so that proofs can cite
      it instead of re-deriving it element by element. */
  lemma AppendAssoc(a: string, b: string, c: string)
    ensures (a + b) + c == a + (b + c)
  {
  }

  /** The rewrite works character by character: it distributes over
      concatenation, so a caret anywhere becomes `**` in place, whatever
      surrounds it. */
  lemma {:induction false} ReplaceCaretConcat(x: string, y: string)
    ensures ReplaceCaret(x + y) == ReplaceCaret(x) + ReplaceCaret(y)
  {
    if x == [] {
      assert x + y == y;
    } else {
      assert (x + y)[1..] == x[1..] + y;
      ReplaceCaretConcat(x[1..], y);
      AppendAssoc(if x[0] == '^' then "**" else [x[0]], ReplaceCaret(x[1..]), ReplaceCaret(y));
    }
  }

  /** Each caret becomes exactly `**`, and the text on either side is
      rewritten independently. */
  lemma CaretBecomesPower(x: string, y: string)
    ensures ReplaceCaret(x + "^" + y) == ReplaceCaret(x) + "**" + ReplaceCaret(y)
  {
    ReplaceCaretConcat(x + "^", y);
    ReplaceCaretConcat(x, "^");
  }

  /** A string without a caret is returned unchanged. */
  lemma {:induction false} ReplaceCaretIdentity(s: string)
    requires '^' !in s
    ensures ReplaceCaret(s) == s
  {
    if s != [] {
      ReplaceCaretIdentity(s[1..]);
    }
  }
}
