/**
 * `DocumentService.extract_text`: checks an uploaded file's name, extension
 * and content, and returns its text with every line stripped and the blank
 * lines dropped.
 */
module DocumentService {
  import opened Wrappers
  import opened Strings
  import opened Http

  type Byte = bv8

  function IsDot(c: char): bool {
    c == '.'
  }

  /** A format as configured: lower case, leading dots dropped. */
  function NormalFormat(fmt: string): string {
    Lower(LStripBy(fmt, IsDot))
  }

  /** The supported formats, normalised. */
  function Formats(supported: seq<string>): (r: set<string>)
    ensures forall f :: f in supported ==> NormalFormat(f) in r
    ensures forall e :: e in r ==> exists f :: f in supported && NormalFormat(f) == e
  {
    set f | f in supported :: NormalFormat(f)
  }

  /** A component of a POSIX path that names something: not empty and not ".". */
  predicate IsNamePart(p: string) {
    p != "" && p != "."
  }

  /** `Path(filename).name`: the last component that names something, or "" when there is none. */
  function BaseName(path: string): (r: string)
    ensures '/' !in r
  {
    var parts := SplitOn(path, '/');
    LastNamePart(parts)
  }

  function LastNamePart(parts: seq<string>): (r: string)
    requires forall k :: 0 <= k < |parts| ==> '/' !in parts[k]
    ensures '/' !in r
    ensures r == "" || r in parts
    decreases |parts|
  {
    if |parts| == 0 then ""
    else if IsNamePart(parts[|parts| - 1]) then parts[|parts| - 1]
    else LastNamePart(parts[..|parts| - 1])
  }

  /** Position of the last `c` in `s`, or -1. */
  function RFind(s: string, c: char): (r: int)
    ensures -1 <= r < |s|
    ensures r >= 0 ==> s[r] == c
    ensures forall k :: r < k < |s| ==> s[k] != c
    decreases |s|
  {
    if |s| == 0 then -1
    else if s[|s| - 1] == c then |s| - 1
    else RFind(s[..|s| - 1], c)
  }

  /**
   * `PurePath.suffix` of a name: from its last dot to the end, provided that
   * dot is neither the first nor the last character; "" otherwise.
   */
  function Suffix(name: string): (r: string)
    ensures r != "" ==> 2 <= |r| < |name| && r == name[|name| - |r|..]
    ensures r != "" ==> r[0] == '.' && '.' !in r[1..]
    ensures r == "" <==> forall k :: 0 < k < |name| - 1 ==> name[k] != '.' || exists j :: k < j < |name| && name[j] == '.'
  {
    var i := RFind(name, '.');
    if 0 < i < |name| - 1 then
      assert forall k :: 1 <= k < |name| - i ==> name[i..][k] == name[i + k];
      name[i..]
    else ""
  }

  /** The lower-cased extension of a file name, without its dot. */
  function Extension(filename: string): string {
    Lower(LStripBy(Suffix(BaseName(filename)), IsDot))
  }

  /** A suffix starts with exactly one dot, so the extension is the rest of it, lower-cased. */
  lemma ExtensionOfSuffix(filename: string)
    ensures var sfx := Suffix(BaseName(filename));
      Extension(filename) == if sfx == "" then "" else Lower(sfx[1..])
  {
    var sfx := Suffix(BaseName(filename));
    if sfx != "" {
      assert sfx[1..][0] == sfx[1];
      assert LeadingRun(sfx, IsDot) == 1;
    }
  }

  const MissingFile := HttpError(BadRequest, "Файл не найден")
  const EmptyFile := HttpError(BadRequest, "Файл пуст")
  const NoText := HttpError(UnprocessableEntity, "Не удалось извлечь текст")

  function UnsupportedFormat(extension: string): HttpError {
    HttpError(UnsupportedMediaType, "Неподдерживаемый формат: " + extension)
  }

  /** `"\n".join(line.strip() for line in text.splitlines() if line.strip())`. */
  function CleanText(text: string): string {
    JoinWith("\n", StrippedNonBlank(Lines(text)))
  }

  /** A line of cleaned text: not empty, stripped, without a line break. */
  predicate CleanLine(p: string) {
    p != "" && IsStripped(p) && NoneSatisfy(p, IsLineBreak)
  }

  predicate AllClean(parts: seq<string>) {
    forall k :: 0 <= k < |parts| ==> CleanLine(parts[k])
  }

  /** The stripped non-blank lines of any text are clean lines. */
  lemma CleanLines(text: string)
    ensures AllClean(StrippedNonBlank(Lines(text)))
  {
    var lines := Lines(text);
    var parts := StrippedNonBlank(lines);
    StrippedNonBlankMembers(lines);
    forall k | 0 <= k < |parts|
      ensures NoneSatisfy(parts[k], IsLineBreak)
    {
      var i :| 0 <= i < |lines| && parts[k] == Strip(lines[i]);
      StripKeepsAbsence(lines[i], IsLineBreak);
    }
  }

  /** Clean lines joined by newlines come back from splitting, from `splitlines` and from cleaning. */
  lemma JoinOfClean(parts: seq<string>)
    requires AllClean(parts)
    ensures JoinWith("\n", parts) == "" <==> parts == []
    ensures parts != [] ==> SplitOn(JoinWith("\n", parts), '\n') == parts
    ensures Lines(JoinWith("\n", parts)) == parts
    ensures StrippedNonBlank(parts) == parts
  {
    LinesOfJoin(parts);
    StrippedOfClean(parts);
    if |parts| > 0 {
      JoinNonEmpty(parts);
      NoNewline(parts);
      SplitOfJoin(parts, '\n');
    }
  }

  /** Cleaning twice is cleaning once. */
  lemma CleanTextIdempotent(text: string)
    ensures CleanText(CleanText(text)) == CleanText(text)
  {
    CleanLines(text);
    JoinOfClean(StrippedNonBlank(Lines(text)));
  }

  /** Without line breaks there is no newline either. */
  lemma NoNewline(parts: seq<string>)
    requires forall k :: 0 <= k < |parts| ==> NoneSatisfy(parts[k], IsLineBreak)
    ensures forall k :: 0 <= k < |parts| ==> '\n' !in parts[k]
  {
    forall k | 0 <= k < |parts|
      ensures '\n' !in parts[k]
    {
      assert IsLineBreak('\n');
    }
  }

  /**
   * The cleaned text is empty exactly when every line is blank; otherwise,
   * split on newlines or into lines, it gives back the stripped non-blank
   * lines, in order.
   */
  lemma CleanTextSpec(text: string)
    ensures CleanText(text) == "" <==> StrippedNonBlank(Lines(text)) == []
    ensures CleanText(text) != "" ==> SplitOn(CleanText(text), '\n') == StrippedNonBlank(Lines(text))
    ensures CleanText(text) != "" ==> Lines(CleanText(text)) == StrippedNonBlank(Lines(text))
  {
    CleanLines(text);
    JoinOfClean(StrippedNonBlank(Lines(text)));
  }

  /** Joining pieces the first of which is not empty gives a non-empty text. */
  lemma JoinNonEmpty(parts: seq<string>)
    requires |parts| > 0 && parts[0] != ""
    ensures JoinWith("\n", parts) != ""
  {
    if |parts| > 1 {
      assert |JoinWith("\n", parts)| >= |parts[0]|;
    }
  }

  /** Pieces already stripped and non-blank come through `StrippedNonBlank` unchanged. */
  lemma {:induction false} StrippedOfClean(parts: seq<string>)
    requires AllClean(parts)
    ensures StrippedNonBlank(parts) == parts
    decreases |parts|
  {
    if |parts| > 0 {
      StripOfStripped(parts[0]);
      StrippedOfClean(parts[1..]);
    }
  }

  /**
   * `extract_text`: a missing name, an unsupported extension and empty content
   * are refused in that order; the bytes are decoded by `decode` (UTF-8,
   * ignoring errors), and a text without a non-blank line is refused.
   */
  function ExtractText(supported: seq<string>, filename: Option<string>, content: seq<Byte>, decode: seq<Byte> -> string)
    : (r: Result<string, HttpError>)
  {
    if filename.None? || filename.value == "" then Err(MissingFile)
    else
      var extension := Extension(filename.value);
      if extension !in Formats(supported) then Err(UnsupportedFormat(extension))
      else if |content| == 0 then Err(EmptyFile)
      else
        var cleaned := CleanText(decode(content));
        if cleaned == "" then Err(NoText) else Ok(cleaned)
  }

  /**
   * Which check refuses a document, in order, and that an accepted one yields
   * exactly the stripped non-blank lines of the decoded text.
   */
  lemma ExtractTextSpec(supported: seq<string>, filename: Option<string>, content: seq<Byte>, decode: seq<Byte> -> string)
    ensures var r := ExtractText(supported, filename, content, decode);
      && (r == Err(MissingFile) <==> filename.None? || filename.value == "")
      && (filename.Some? && filename.value != "" ==>
            && (r.Err? && r.error.status == UnsupportedMediaType <==> Extension(filename.value) !in Formats(supported))
            && (Extension(filename.value) in Formats(supported) ==>
                  && (r == Err(EmptyFile) <==> |content| == 0)
                  && (|content| > 0 ==>
                        && (r == Err(NoText) <==> StrippedNonBlank(Lines(decode(content))) == [])
                        && (r.Ok? ==> Lines(r.value) == StrippedNonBlank(Lines(decode(content))))
                        && (r.Ok? ==> CleanText(r.value) == r.value))))
  {
    if filename.Some? && filename.value != "" && |content| > 0 {
      CleanTextSpec(decode(content));
      CleanTextIdempotent(decode(content));
    }
  }
}
