/** Shared vocabulary of the model: failure-carrying datatypes for the
    source's exceptions and absent dictionary keys, and the few facts about
    Python strings the pipeline relies on (whitespace, substring search,
    counting and removing one character). */
module Base {

  /** A dictionary lookup that may find nothing (`dict.get` returning None). */
  datatype Option<+T> = None | Some(value: T) {
    function GetOr(default: T): T {
      match this
      case Some(v) => v
      case None => default
    }
  }

  /** A computation that either returns a value or raises; `error` is the
      exception's message, `str(e)` in the source. */
  datatype Result<+T, +E> = Ok(value: T) | Err(error: E)

  /** Python's notion of whitespace for `str` (what `str.strip()` removes and
      what the regular expression class `\s` matches): the ASCII controls
      TAB..CR, the separators 0x1C..0x1F, SPACE, NEL, NBSP and the Unicode
      space separators, line and paragraph separators. */
  predicate IsSpace(c: char) {
    var n := c as int;
    || (0x09 <= n <= 0x0D)
    || (0x1C <= n <= 0x20)
    || n == 0x85 || n == 0xA0 || n == 0x1680
    || (0x2000 <= n <= 0x200A)
    || n == 0x2028 || n == 0x2029 || n == 0x202F || n == 0x205F || n == 0x3000
  }

  /** `s.strip()` is the empty string exactly when every character is whitespace. */
  predicate IsBlank(s: string) {
    forall i | 0 <= i < |s| :: IsSpace(s[i])
  }

  /** `t` occurs in `s` starting at index `i`. */
  predicate OccursAt(s: string, t: string, i: nat) {
    i + |t| <= |s| && s[i..i + |t|] == t
  }

  /** Python's `t in s` for strings. */
  predicate Contains(s: string, t: string) {
    exists i: nat | i <= |s| :: OccursAt(s, t, i)
  }

  /** Number of occurrences of character `c` in `s`. */
  function CountChar(s: string, c: char): nat {
    if |s| == 0 then 0
    else (if s[0] == c then 1 else 0) + CountChar(s[1..], c)
  }

  /** `s` with every occurrence of `c` removed, order of the rest kept. */
  function DropChar(s: string, c: char): (r: string)
    ensures c !in r
  {
    if |s| == 0 then ""
    else if s[0] == c then DropChar(s[1..], c)
    else [s[0]] + DropChar(s[1..], c)
  }

  lemma {:induction false} DropCharAppend(a: string, b: string, c: char)
    ensures DropChar(a + b, c) == DropChar(a, c) + DropChar(b, c)
  {
    if |a| == 0 {
      assert a + b == b;
    } else {
      assert (a + b)[1..] == a[1..] + b;
      DropCharAppend(a[1..], b, c);
    }
  }

  /** Removing one character never changes how often another one occurs. */
  lemma {:induction false} CountSurvivesDrop(s: string, dropped: char, c: char)
    requires dropped != c
    ensures CountChar(DropChar(s, dropped), c) == CountChar(s, c)
  {
    if |s| > 0 {
      CountSurvivesDrop(s[1..], dropped, c);
      if s[0] != dropped {
        assert ([s[0]] + DropChar(s[1..], dropped))[1..] == DropChar(s[1..], dropped);
      }
    }
  }
}
