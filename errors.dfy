/** `ManifestError` and its user-facing display text. */
module ManifestErrors {

  /** The error kinds of the manifest engine. A parse error carries the
      zero-based line and column of the start and end of the offending span. */
  datatype ManifestError =
    | MissingManifest
    | NonExistentTable(table: string)
    | NonExistentDependency(name: string, table: string)
    | ParseError(message: string, loline: nat, locol: nat, hiline: nat, hicol: nat)

  /** Decimal digits of a natural number, as Rust's `{}` prints a `usize`. */
  function ShowNat(n: nat): (s: string)
    ensures |s| >= 1
    ensures forall i :: 0 <= i < |s| ==> IsDigit(s[i])
    ensures |s| == 1 || s[0] != '0'
    decreases n
  {
    if n < 10 then [DigitChar(n)] else ShowNat(n / 10) + [DigitChar(n % 10)]
  }

  predicate IsDigit(c: char) {
    '0' <= c <= '9'
  }

  function DigitChar(d: nat): (c: char)
    requires d < 10
    ensures IsDigit(c) && (c as int) - ('0' as int) == d
  {
    ('0' as int + d) as char
  }

  function DigitValue(c: char): (d: nat)
    requires IsDigit(c)
    ensures d < 10
  {
    (c as int) - ('0' as int)
  }

  /** Reads back a string of decimal digits. */
  function ReadNat(s: string): nat
    requires forall i :: 0 <= i < |s| ==> IsDigit(s[i])
  {
    if s == [] then 0
    else ReadNat(s[..|s| - 1]) * 10 + DigitValue(s[|s| - 1])
  }

  lemma {:induction false} ReadShowNat(n: nat)
    ensures ReadNat(ShowNat(n)) == n
    decreases n
  {
    if n >= 10 {
      var s := ShowNat(n);
      assert s[..|s| - 1] == ShowNat(n / 10);
      ReadShowNat(n / 10);
    }
  }

  /** "line:col" with both printed one-based. */
  function Position(line: nat, col: nat): string {
    ShowNat(line + 1) + ":" + ShowNat(col + 1)
  }

  /** The span part of a parse error's display: the start position, followed
      by "-" and the end position only when the two differ. */
  function SpanText(loline: nat, locol: nat, hiline: nat, hicol: nat): string {
    Position(loline, locol)
      + (if loline != hiline || locol != hicol then "-" + Position(hiline, hicol) else "")
  }

  /** The `Display` text of each error kind. The texts that carry names
      are a fixed head, the name, and a tail. */
  function Display(e: ManifestError): (r: string)
    ensures e.MissingManifest? ==> r == "Your Cargo.toml is missing."
    ensures e.NonExistentTable? ==>
              Frames(r, "The table `", e.table, "` could not be found.")
    ensures e.NonExistentDependency? ==>
              Frames(r, "The dependency `", e.name, "` could not be found in `" + e.table + "`.")
    ensures e.NonExistentDependency? ==>
              Frames(r, "The dependency `" + e.name + "` could not be found in `", e.table, "`.")
    ensures e.ParseError? ==> |r| > 0 && IsDigit(r[0])
  {
    match e
    case MissingManifest => "Your Cargo.toml is missing."
    case NonExistentTable(table) => TableText(table)
    case NonExistentDependency(name, table) => DependencyText(name, table)
    case ParseError(message, loline, locol, hiline, hicol) => ParseErrorText(message, loline, locol, hiline, hicol)
  }

  function TableText(table: string): (r: string)
    ensures Frames(r, "The table `", table, "` could not be found.")
  {
    Slices("The table `", table, "` could not be found.");
    "The table `" + table + "` could not be found."
  }

  function DependencyText(name: string, table: string): (r: string)
    ensures Frames(r, "The dependency `", name, "` could not be found in `" + table + "`.")
    ensures Frames(r, "The dependency `" + name + "` could not be found in `", table, "`.")
  {
    Slices5("The dependency `", name, "` could not be found in `", table, "`.");
    "The dependency `" + name + "` could not be found in `" + table + "`."
  }

  function ParseErrorText(message: string, loline: nat, locol: nat, hiline: nat, hicol: nat): (r: string)
    ensures |r| > 0 && IsDigit(r[0])
  {
    StartsWithDigit(loline, locol, hiline, hicol, " " + message);
    SpanText(loline, locol, hiline, hicol) + " " + message
  }

  /** `text` is `head`, then `middle`, then `tail`, each where a reader
      finds it by length. */
  predicate Frames(text: string, head: string, middle: string, tail: string) {
    && |text| == |head| + |middle| + |tail|
    && text[..|head|] == head
    && text[|head|..|head| + |middle|] == middle
    && text[|head| + |middle|..] == tail
  }

  /** A span text starts with a digit, whatever follows it. */
  lemma StartsWithDigit(loline: nat, locol: nat, hiline: nat, hicol: nat, rest: string)
    ensures |SpanText(loline, locol, hiline, hicol) + rest| > 0
    ensures IsDigit((SpanText(loline, locol, hiline, hicol) + rest)[0])
  {
    var a := ShowNat(loline + 1);
    assert (SpanText(loline, locol, hiline, hicol) + rest)[0] == a[0];
  }

  lemma Slices(head: string, middle: string, tail: string)
    ensures Frames(head + middle + tail, head, middle, tail)
  {
  }

  /** A five-part text, framed around its second and its fourth part. */
  lemma Slices5(a: string, b: string, c: string, d: string, e: string)
    ensures Frames(a + b + c + d + e, a, b, c + d + e)
    ensures Frames(a + b + c + d + e, a + b + c, d, e)
  {
    assert a + b + c + d + e == a + b + (c + d + e);
    Slices(a, b, c + d + e);
    Slices(a + b + c, d, e);
  }

  /** A zero-based source span. */
  datatype Span = Span(loline: nat, locol: nat, hiline: nat, hicol: nat)

  /** Index of the first occurrence of `c` in `s`, or `|s|` if there is none. */
  function IndexOf(s: string, c: char): (i: nat)
    ensures i <= |s|
    ensures i < |s| ==> s[i] == c
    ensures forall j :: 0 <= j < i ==> s[j] != c
  {
    if s == [] then 0
    else if s[0] == c then 0
    else 1 + IndexOf(s[1..], c)
  }

  predicate AllDigits(s: string) {
    forall i :: 0 <= i < |s| ==> IsDigit(s[i])
  }

  /** Reads a one-based "line:col" back into a zero-based pair. */
  function ReadPosition(s: string): ReadPos
  {
    var k := IndexOf(s, ':');
    if k < |s| && AllDigits(s[..k]) && AllDigits(s[k + 1..]) then
      var line, col := ReadNat(s[..k]), ReadNat(s[k + 1..]);
      if line >= 1 && col >= 1 then Pos(line - 1, col - 1) else NoPos
    else NoPos
  }

  datatype ReadPos = NoPos | Pos(line: nat, col: nat)

  /** Reads the span back from the front of a parse error's display text:
      everything up to the first space, split at an optional "-". */
  function ReadSpan(text: string): (r: (Span, string))
  {
    var sp := IndexOf(text, ' ');
    var span := text[..sp];
    var rest := if sp < |text| then text[sp + 1..] else "";
    var dash := IndexOf(span, '-');
    var lo := ReadPosition(span[..dash]);
    var hi := if dash < |span| then ReadPosition(span[dash + 1..]) else lo;
    match (lo, hi)
    case (Pos(ll, lc), Pos(hl, hc)) => (Span(ll, lc, hl, hc), rest)
    case _ => (Span(0, 0, 0, 0), rest)
  }

  lemma IndexOfPrefix(a: string, c: char, b: string)
    requires forall i :: 0 <= i < |a| ==> a[i] != c
    ensures IndexOf(a + [c] + b, c) == |a|
  {
    var s := a + [c] + b;
    var k := IndexOf(s, c);
    assert s[|a|] == c;
    assert forall j :: 0 <= j < |a| ==> s[j] == a[j];
  }

  lemma IndexOfAbsent(a: string, c: char)
    requires forall i :: 0 <= i < |a| ==> a[i] != c
    ensures IndexOf(a, c) == |a|
  {
  }

  lemma ReadShowPosition(line: nat, col: nat)
    ensures ReadPosition(Position(line, col)) == Pos(line, col)
  {
    var a, b := ShowNat(line + 1), ShowNat(col + 1);
    var s := Position(line, col);
    assert s == a + [':'] + b;
    IndexOfPrefix(a, ':', b);
    assert s[..|a|] == a;
    assert s[|a| + 1..] == b;
    ReadShowNat(line + 1);
    ReadShowNat(col + 1);
  }

  /** A printed position holds digits and one colon: no space, no dash. */
  lemma PositionChars(line: nat, col: nat)
    ensures forall i :: 0 <= i < |Position(line, col)| ==>
              Position(line, col)[i] != ' ' && Position(line, col)[i] != '-'
  {
    var a, b := ShowNat(line + 1), ShowNat(col + 1);
    var p := Position(line, col);
    assert p == a + [':'] + b;
    forall i | 0 <= i < |p| ensures p[i] != ' ' && p[i] != '-' {
      if i < |a| { assert p[i] == a[i] && IsDigit(a[i]); }
      else if i > |a| { assert p[i] == b[i - |a| - 1] && IsDigit(b[i - |a| - 1]); }
    }
  }

  /** The display of a parse error is unambiguous: its span and its message
      can be read back from the text, whichever form the span took. */
  lemma {:induction false} ParseErrorDisplayRoundTrip(message: string, loline: nat, locol: nat, hiline: nat, hicol: nat)
    ensures ReadSpan(Display(ParseError(message, loline, locol, hiline, hicol)))
         == (Span(loline, locol, hiline, hicol), message)
  {
    if loline != hiline || locol != hicol {
      TwoPositionsRoundTrip(message, loline, locol, hiline, hicol);
    } else {
      OnePositionRoundTrip(message, loline, locol);
    }
  }

  /** The end position is printed, after a "-", exactly when the span's two
      ends differ: the span part of the text holds a dash iff they do. */
  lemma ParseErrorEndShown(message: string, loline: nat, locol: nat, hiline: nat, hicol: nat)
    ensures var text := Display(ParseError(message, loline, locol, hiline, hicol));
            var span := text[..IndexOf(text, ' ')];
            IndexOf(span, '-') < |span| <==> (loline != hiline || locol != hicol)
  {
    var lo, hi := Position(loline, locol), Position(hiline, hicol);
    var text := Display(ParseError(message, loline, locol, hiline, hicol));
    PositionChars(loline, locol);
    PositionChars(hiline, hicol);
    if loline != hiline || locol != hicol {
      var span := SpanText(loline, locol, hiline, hicol);
      assert span == lo + ['-'] + hi;
      SpanChars(lo, hi);
      assert text == span + [' '] + message;
      IndexOfPrefix(span, ' ', message);
      assert text[..|span|] == span;
      IndexOfPrefix(lo, '-', hi);
    } else {
      assert text == lo + [' '] + message;
      IndexOfPrefix(lo, ' ', message);
      assert text[..|lo|] == lo;
      IndexOfAbsent(lo, '-');
    }
  }

  /** A span whose ends coincide is printed as one position. */
  lemma OnePositionRoundTrip(message: string, line: nat, col: nat)
    ensures ReadSpan(Display(ParseError(message, line, col, line, col)))
         == (Span(line, col, line, col), message)
  {
    var lo := Position(line, col);
    var text := Display(ParseError(message, line, col, line, col));
    PositionChars(line, col);
    assert text == lo + [' '] + message;
    IndexOfPrefix(lo, ' ', message);
    assert text[..|lo|] == lo;
    assert text[|lo| + 1..] == message;
    IndexOfAbsent(lo, '-');
    assert lo[..|lo|] == lo;
    ReadShowPosition(line, col);
  }

  /** A span whose ends differ is printed as two positions joined by "-". */
  lemma TwoPositionsRoundTrip(message: string, loline: nat, locol: nat, hiline: nat, hicol: nat)
    requires loline != hiline || locol != hicol
    ensures ReadSpan(Display(ParseError(message, loline, locol, hiline, hicol)))
         == (Span(loline, locol, hiline, hicol), message)
  {
    var lo, hi := Position(loline, locol), Position(hiline, hicol);
    var span := SpanText(loline, locol, hiline, hicol);
    var text := Display(ParseError(message, loline, locol, hiline, hicol));
    PositionChars(loline, locol);
    PositionChars(hiline, hicol);
    assert span == lo + ['-'] + hi;
    SpanChars(lo, hi);
    assert text == span + [' '] + message;
    IndexOfPrefix(span, ' ', message);
    assert text[..|span|] == span;
    assert text[|span| + 1..] == message;
    IndexOfPrefix(lo, '-', hi);
    assert span[..|lo|] == lo;
    assert span[|lo| + 1..] == hi;
    ReadShowPosition(loline, locol);
    ReadShowPosition(hiline, hicol);
  }

  lemma SpanChars(lo: string, hi: string)
    requires forall i :: 0 <= i < |lo| ==> lo[i] != ' '
    requires forall i :: 0 <= i < |hi| ==> hi[i] != ' '
    ensures forall i :: 0 <= i < |lo + ['-'] + hi| ==> (lo + ['-'] + hi)[i] != ' '
  {
    var span := lo + ['-'] + hi;
    forall i | 0 <= i < |span| ensures span[i] != ' ' {
      if i < |lo| { assert span[i] == lo[i]; }
      else if i > |lo| { assert span[i] == hi[i - |lo| - 1]; }
    }
  }
}
