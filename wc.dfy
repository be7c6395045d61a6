/**
  rust-wc (rust-wc/src/main.rs): `wc_default` counts the bytes, newlines
  and words of a text in one pass over its characters, and `main` runs it
  over standard input or over each file named on the command line.

  A text is a sequence of Unicode scalar values; its byte count is the
  length of its UTF-8 encoding. A word is counted where an ASCII
  whitespace character is followed by an alphanumeric or ASCII punctuation
  character, plus one for any non-empty text.
*/
module WordCount {
  import opened Options

  /** `char::is_ascii_whitespace`: space, tab, line feed, form feed, carriage return. */
  predicate IsAsciiWhitespace(c: char) {
    c == ' ' || c == '\t' || c == '\n' || c as int == 0x0C || c == '\r'
  }

  /** `char::is_ascii_punctuation`: the printable ASCII characters that are neither letters, digits nor space. */
  predicate IsAsciiPunctuation(c: char) {
    var n := c as int;
    (0x21 <= n <= 0x2F) || (0x3A <= n <= 0x40) || (0x5B <= n <= 0x60) || (0x7B <= n <= 0x7E)
  }

  /** `char::is_alphanumeric`, on the ASCII range: letters and digits. */
  predicate IsAlphanumeric(c: char) {
    ('a' <= c <= 'z') || ('A' <= c <= 'Z') || ('0' <= c <= '9')
  }

  /** A character that starts a word when it follows whitespace. */
  predicate StartsWord(c: char) {
    IsAlphanumeric(c) || IsAsciiPunctuation(c)
  }

  /** `char::MAX`, the initial "previous character" of the scan. */
  const CHAR_MAX: char := '\U{10FFFF}'

  /** Length of a character's UTF-8 encoding. */
  function Utf8Width(c: char): (w: nat)
    ensures 1 <= w <= 4
  {
    var n := c as int;
    if n < 0x80 then 1 else if n < 0x800 then 2 else if n < 0x10000 then 3 else 4
  }

  /** `String::len`: the length in bytes of the text's UTF-8 encoding. */
  function Utf8Length(s: string): nat {
    if s == [] then 0 else Utf8Width(s[0]) + Utf8Length(s[1..])
  }

  /** A word is counted at position `i` when whitespace precedes a word-starting character. */
  predicate WordStartAt(s: string, i: nat) {
    1 <= i < |s| && IsAsciiWhitespace(s[i - 1]) && StartsWord(s[i])
  }

  /** The positions below `n` where a word is counted. */
  function WordStartsBelow(s: string, n: nat): set<nat> {
    set i: nat | i < n && WordStartAt(s, i)
  }

  /** The three totals of `wc_default`. */
  datatype Counts = Counts(bytes: nat, lines: nat, words: nat)

  /**
    What `wc_default` reports: the byte length, the number of line feeds,
    and the number of word starts after whitespace plus one for a
    non-empty text.
  */
  function Expected(s: string): Counts {
    Counts(Utf8Length(s), multiset(s)['\n'], |WordStartsBelow(s, |s|)| + if |s| > 0 then 1 else 0)
  }

  // ---------------------------------------------------------------------------
  // Properties of the counts

  /** A text has bytes exactly when it has characters, and between one and four bytes per character. */
  lemma {:induction false} Utf8LengthBounds(s: string)
    ensures |s| <= Utf8Length(s) <= 4 * |s|
    ensures Utf8Length(s) > 0 <==> |s| > 0
  {
    if s != [] {
      Utf8LengthBounds(s[1..]);
    }
  }

  /** An ASCII text has one byte per character. */
  lemma {:induction false} Utf8LengthAscii(s: string)
    requires forall i | 0 <= i < |s| :: s[i] as int < 0x80
    ensures Utf8Length(s) == |s|
  {
    if s != [] {
      Utf8LengthAscii(s[1..]);
    }
  }

  /** The word positions below `n + 1` are those below `n`, plus `n` if a word starts there. */
  lemma WordStartsStep(s: string, n: nat)
    ensures WordStartsBelow(s, n + 1) == WordStartsBelow(s, n) + (if WordStartAt(s, n) then {n} else {})
  {
  }

  /** The words counted below `n` never outnumber the positions 1 .. n-1. */
  lemma {:induction false} WordStartsBelowBound(s: string, n: nat)
    ensures |WordStartsBelow(s, n)| <= if n == 0 then 0 else n - 1
  {
    if n > 0 {
      WordStartsBelowBound(s, n - 1);
      WordStartsStep(s, n - 1);
      assert n - 1 !in WordStartsBelow(s, n - 1);
      if n == 1 {
        assert !WordStartAt(s, 0);
      }
    }
  }

  /** Empty input counts nothing. */
  lemma EmptyCountsNothing()
    ensures Expected("") == Counts(0, 0, 0)
  {
    assert WordStartsBelow("", 0) == {};
  }

  /** A non-empty text with no alphanumeric or punctuation character (only spaces, say) counts one word. */
  lemma NoWordCharacterOneWord(s: string)
    requires |s| > 0
    requires forall i | 0 <= i < |s| :: !StartsWord(s[i])
    ensures Expected(s).words == 1
  {
    assert WordStartsBelow(s, |s|) == {};
  }

  /** The first character never starts a counted word: `char::MAX` is not whitespace. */
  lemma FirstCharacterNotCounted(s: string)
    ensures 0 !in WordStartsBelow(s, |s|)
    ensures !IsAsciiWhitespace(CHAR_MAX)
  {
  }

  /** Lines and words are each at most the number of characters. */
  lemma CountsBounded(s: string)
    ensures Expected(s).lines <= |s|
    ensures Expected(s).words <= |s|
  {
    WordStartsBelowBound(s, |s|);
    MultisetCountBound(s, '\n');
  }

  lemma {:induction false} MultisetCountBound(s: string, c: char)
    ensures multiset(s)[c] <= |s|
  {
    if s != [] {
      MultisetCountBound(s[1..], c);
      assert s == [s[0]] + s[1..];
    }
  }

  /** Counting distributes over concatenation for bytes and lines. */
  lemma {:induction false} CountsAppend(a: string, b: string)
    ensures Utf8Length(a + b) == Utf8Length(a) + Utf8Length(b)
    ensures multiset(a + b)['\n'] == multiset(a)['\n'] + multiset(b)['\n']
  {
    if a != [] {
      assert (a + b)[1..] == a[1..] + b;
      CountsAppend(a[1..], b);
    } else {
      assert a + b == b;
    }
  }

  // ---------------------------------------------------------------------------
  // The scan and the command

  /** `wc_default` in rust-wc/src/main.rs: one pass over the characters, remembering the previous one. */
  method WcDefault(content: string) returns (counts: Counts)
    ensures counts == Expected(content)
  {
    var bytes := Utf8Length(content);
    var lines := 0;
    var words := 0;
    var prevWord := CHAR_MAX;
    for i := 0 to |content|
      invariant lines == multiset(content[..i])['\n']
      invariant words == |WordStartsBelow(content, i)|
      invariant prevWord == if i == 0 then CHAR_MAX else content[i - 1]
    {
      var l := content[i];
      assert content[..i + 1] == content[..i] + [l];
      if l == '\n' {
        lines := lines + 1;
      }
      WordStartsStep(content, i);
      if IsAsciiWhitespace(prevWord) {
        if IsAlphanumeric(l) || IsAsciiPunctuation(l) {
          words := words + 1;
        }
      }
      prevWord := l;
    }
    assert content[..|content|] == content;
    Utf8LengthBounds(content);
    if bytes > 0 {
      words := words + 1;
    }
    return Counts(bytes, lines, words);
  }

  /** How the command ended: normally, or by the panic of an input that could not be read. */
  datatype Exit = Finished | ReadFailed

  /**
    `read_from_stdin`: standard input is read whole, then counted; a read
    that fails (`None`, an I/O error or invalid UTF-8) panics (`expect`).
  */
  method ReadFromStdin(stdin: Option<string>) returns (counts: Counts, exit: Exit)
    ensures exit == ReadFailed <==> stdin.None?
    ensures stdin.Some? ==> counts == Expected(stdin.value)
  {
    if stdin.None? {
      return Counts(0, 0, 0), ReadFailed;
    }
    counts := WcDefault(stdin.value);
    return counts, Finished;
  }

  /**
    `main`: with no file argument, count standard input and exit; otherwise
    count each named file in turn, each result overwriting the last. An
    input that cannot be read aborts the command (`expect`). The totals are
    never printed.
  */
  method WcMain(args: seq<string>, stdin: Option<string>, files: map<string, string>)
    returns (totals: Counts, exit: Exit)
    ensures |args| < 2 ==> (exit == ReadFailed <==> stdin.None?)
    ensures |args| < 2 && stdin.Some? ==> totals == Expected(stdin.value)
    ensures |args| >= 2 ==> (exit == ReadFailed <==> exists i | 1 <= i < |args| :: args[i] !in files)
    ensures |args| >= 2 && exit == Finished ==> totals == Expected(files[args[|args| - 1]])
  {
    totals := Counts(0, 0, 0);
    if |args| < 2 {
      totals, exit := ReadFromStdin(stdin);
      return;
    }
    for i := 1 to |args|
      invariant forall j | 1 <= j < i :: args[j] in files
      invariant i > 1 ==> totals == Expected(files[args[i - 1]])
    {
      var filename := args[i];
      if filename !in files {
        return totals, ReadFailed;
      }
      var content := files[filename];
      totals := WcDefault(content);
    }
    return totals, Finished;
  }
}
