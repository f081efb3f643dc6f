/** Header fields as text, one "name: value" line each, and the line-by-line reader that undoes it. */
module HeaderText {
  import opened Wrappers

  const CRLF := "\r\n"
  const SEPARATOR := ": "

  datatype Field = Field(name: string, value: string)

  function Line(f: Field): string { f.name + SEPARATOR + f.value + CRLF }

  function Printed(fields: seq<Field>): string
    decreases |fields|
  {
    if fields == [] then "" else Printed(fields[..|fields| - 1]) + Line(fields[|fields| - 1])
  }

  // ---- Names ----

  function LowerAscii(c: char): char {
    if 'A' <= c <= 'Z' then c - 'A' + 'a' else c
  }

  function Lower(name: string): string {
    seq(|name|, i requires 0 <= i < |name| => LowerAscii(name[i]))
  }

  /** The same character, or a capital ASCII letter and its small one, 32 above it. */
  predicate SameLetter(a: char, b: char) {
    || a == b
    || ('A' <= a <= 'Z' && b as int == a as int + 32)
    || ('A' <= b <= 'Z' && a as int == b as int + 32)
  }

  /** The same text but for the case of ASCII letters. */
  predicate SameButCase(left: string, right: string) {
    |left| == |right| && forall i :: 0 <= i < |left| ==> SameLetter(left[i], right[i])
  }

  lemma LowerIsSameButCase(left: string, right: string)
    ensures Lower(left) == Lower(right) <==> SameButCase(left, right)
  {
    assert |Lower(left)| == |left| && |Lower(right)| == |right|;
    if Lower(left) == Lower(right) {
      forall i | 0 <= i < |left| ensures SameLetter(left[i], right[i]) {
        assert Lower(left)[i] == Lower(right)[i];
        SameLetterIff(left[i], right[i]);
      }
    }
    if SameButCase(left, right) {
      forall i | 0 <= i < |left| ensures Lower(left)[i] == Lower(right)[i] { SameLetterIff(left[i], right[i]); }
    }
  }

  lemma SameLetterIff(a: char, b: char)
    ensures LowerAscii(a) == LowerAscii(b) <==> SameLetter(a, b)
  {
  }

  method HeaderNameEquals(left: string, right: string) returns (equal: bool)
    ensures equal <==> Lower(left) == Lower(right)
    ensures equal <==> SameButCase(left, right)
  {
    LowerIsSameButCase(left, right);
    hide SameButCase;
    if |left| != |right| {
      assert |Lower(left)| != |Lower(right)|;
      return false;
    }
    for i := 0 to |left|
      invariant forall k :: 0 <= k < i ==> Lower(left)[k] == Lower(right)[k]
    {
      if LowerAscii(left[i]) != LowerAscii(right[i]) {
        assert Lower(left)[i] != Lower(right)[i];
        return false;
      }
    }
    return true;
  }

  // ---- Reading ----

  /** Where `pattern` (two characters) first occurs in `text`; the length of `text` if it does not. */
  function IndexOf(text: string, pattern: string): (i: nat)
    requires |pattern| == 2
    ensures i == |text| || i + 2 <= |text|
  {
    if |text| < 2 then |text|
    else if text[0] == pattern[0] && text[1] == pattern[1] then 0
    else IndexOf(text[1..], pattern) + 1
  }

  /** The field of one line: split at the first ": ". */
  function FieldOf(line: string): Option<Field> {
    var at := IndexOf(line, SEPARATOR);
    if at == |line| then None else Some(Field(line[..at], line[at + 2..]))
  }

  /** Reads lines, each ended by the first CR LF, up to the end of the text. */
  function Read(text: string): Option<seq<Field>>
    decreases |text|
  {
    if text == "" then Some([])
    else
      var end := IndexOf(text, CRLF);
      if end == |text| then None
      else
        match FieldOf(text[..end])
        case None => None
        case Some(field) => Before([field], Read(text[end + 2..]))
  }

  function Before(fields: seq<Field>, more: Option<seq<Field>>): Option<seq<Field>> {
    match more
    case None => None
    case Some(rest) => Some(fields + rest)
  }

  /** `pattern` (two characters) occurs nowhere in `text`. */
  predicate Free(text: string, pattern: string)
    requires |pattern| == 2
  {
    forall i :: 0 <= i < |text| - 1 ==> text[i] != pattern[0] || text[i + 1] != pattern[1]
  }

  /** A field whose line can be told apart: no CR LF in it, and no ": " in its name. */
  predicate Readable(f: Field) {
    Free(f.name, CRLF) && Free(f.value, CRLF) && Free(f.name, SEPARATOR)
  }

  lemma FreeJoin(a: string, b: string, pattern: string)
    requires |pattern| == 2 && a != [] && b != []
    ensures Free(a + b, pattern) <==>
            Free(a, pattern) && Free(b, pattern) && (a[|a| - 1] != pattern[0] || b[0] != pattern[1])
  {
    var ab := a + b;
    if Free(ab, pattern) {
      forall i | 0 <= i < |a| - 1 ensures a[i] != pattern[0] || a[i + 1] != pattern[1] {
        assert ab[i] == a[i] && ab[i + 1] == a[i + 1];
      }
      forall i | 0 <= i < |b| - 1 ensures b[i] != pattern[0] || b[i + 1] != pattern[1] {
        assert ab[|a| + i] == b[i] && ab[|a| + i + 1] == b[i + 1];
      }
      assert ab[|a| - 1] == a[|a| - 1] && ab[|a| - 1 + 1] == b[0];
    }
  }

  /** A line is free of CR LF exactly when its name and its value are. */
  lemma LineFree(f: Field)
    ensures Free(f.name + SEPARATOR + f.value, CRLF) <==> Free(f.name, CRLF) && Free(f.value, CRLF)
  {
    var front := f.name + SEPARATOR;
    if f.name != "" { FreeJoin(f.name, SEPARATOR, CRLF); }
    assert "" + SEPARATOR == SEPARATOR && front + "" == front;
    if f.value != "" { FreeJoin(front, f.value, CRLF); }
  }

  lemma {:induction false} IndexBehind(text: string, pattern: string, rest: string)
    requires |pattern| == 2 && pattern[0] != pattern[1] && Free(text, pattern)
    ensures IndexOf(text + pattern + rest, pattern) == |text|
  {
    var whole := text + pattern + rest;
    if text == "" {
      assert whole[0] == pattern[0] && whole[1] == pattern[1];
    } else {
      assert whole[0] == text[0] && whole[1..] == text[1..] + pattern + rest;
      assert |text| > 1 ==> whole[1] == text[1];
      assert |text| == 1 ==> whole[1] == pattern[0];
      forall i | 0 <= i < |text[1..]| - 1 ensures text[1..][i] != pattern[0] || text[1..][i + 1] != pattern[1] {
        assert text[1..][i] == text[i + 1];
      }
      IndexBehind(text[1..], pattern, rest);
    }
  }

  lemma {:induction false} BeforeIndex(text: string, pattern: string)
    requires |pattern| == 2
    ensures Free(text[..IndexOf(text, pattern)], pattern)
    ensures IndexOf(text, pattern) < |text| ==> text[IndexOf(text, pattern)..IndexOf(text, pattern) + 2] == pattern
  {
    if |text| >= 2 && (text[0] != pattern[0] || text[1] != pattern[1]) {
      BeforeIndex(text[1..], pattern);
      var i := IndexOf(text[1..], pattern);
      var rest := text[1..][..i];
      assert text[..i + 1] == [text[0]] + rest;
      if i > 0 { FreeJoin([text[0]], rest, pattern); }
      assert i < |text[1..]| ==> text[1..][i..i + 2] == text[i + 1..i + 3];
    }
  }

  lemma LineReadsBack(f: Field, rest: string)
    requires Readable(f)
    ensures Read(Line(f) + rest) == Before([f], Read(rest))
  {
    var line := f.name + SEPARATOR + f.value;
    var text := Line(f) + rest;
    assert text == line + CRLF + rest;
    LineFree(f);
    IndexBehind(line, CRLF, rest);
    assert text[..|line|] == line && text[|line| + 2..] == rest;
    IndexBehind(f.name, SEPARATOR, f.value);
    assert line[..|f.name|] == f.name && line[|f.name| + 2..] == f.value;
  }

  /** Whatever the reader returns is readable: it never finds a field with CR LF in it or ": " in its name. */
  lemma {:induction false} ReadIsReadable(text: string)
    ensures Read(text).Some? ==> forall f :: f in Read(text).value ==> Readable(f)
    decreases |text|
  {
    hide Free;
    var read := Read(text);
    if text != "" && read.Some? {
      var end := IndexOf(text, CRLF);
      ReadIsReadable(text[end + 2..]);
      FieldIsReadable(text);
    }
  }

  lemma FieldIsReadable(text: string)
    ensures var field := FieldOf(text[..IndexOf(text, CRLF)]); field.Some? ==> Readable(field.value)
  {
    hide Free;
    var line := text[..IndexOf(text, CRLF)];
    BeforeIndex(text, CRLF);
    BeforeIndex(line, SEPARATOR);
    var at := IndexOf(line, SEPARATOR);
    if at < |line| {
      var f := Field(line[..at], line[at + 2..]);
      assert line == f.name + SEPARATOR + f.value;
      LineFree(f);
    }
  }

  /** Reading printed fields returns exactly those fields, followed by whatever follows them. */
  lemma {:induction false} PrintedReadsBack(fields: seq<Field>, rest: string)
    requires forall f :: f in fields ==> Readable(f)
    ensures Read(Printed(fields) + rest) == Before(fields, Read(rest))
    decreases |fields|
  {
    hide Read, Line;
    if fields == [] {
      assert Printed(fields) + rest == rest;
      var read := Read(rest);
      if read.Some? { assert fields + read.value == read.value; }
    } else {
      var front, last := fields[..|fields| - 1], fields[|fields| - 1];
      assert Printed(fields) + rest == Printed(front) + (Line(last) + rest);
      PrintedReadsBack(front, Line(last) + rest);
      LineReadsBack(last, rest);
      var read := Read(rest);
      if read.Some? { assert fields + read.value == front + ([last] + read.value); }
    }
  }

  lemma {:induction false} PrintedLonger(fields: seq<Field>, count: nat)
    requires count <= |fields|
    ensures |Printed(fields[..count])| <= |Printed(fields)|
    decreases |fields|
  {
    if count < |fields| {
      PrintedLonger(fields[..|fields| - 1], count);
      assert fields[..|fields| - 1][..count] == fields[..count];
    } else {
      assert fields[..count] == fields;
    }
  }
}
