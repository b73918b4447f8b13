/**
 The small text-producing rules of cogs/meta.py: the `charinfo` lines, the
 digit check of the `FetchedUser` converter, and the source link of the
 `source` command with its `#L{first}-L{last}` line range.

 Library lookups are parameters: the Unicode character name
 (`unicodedata.name`), the user fetch, the command lookup and the source
 location `inspect` reports.
 */
module MetaText {
  import opened Outcomes
  import opened Strings
  import opened Numerals

  const NameNotFound: string := "Name not found."
  const CharLinePrefix: string := "`\\U"

  /** The code point of `c` in lower-case hex, left-padded with zeros to
      eight digits (`f"{digit:>08}"`). */
  function PaddedCode(c: char): string {
    PadLeft(Hex(c as int), 8, '0')
  }

  /** The `charinfo` line for one character: the backquoted padded code
      point, then its name, the character itself and a link keyed by the
      unpadded hex. */
  function CharLine(c: char, name: Option<string>): (r: string)
    ensures c in r
    ensures EndsWith(r, "/char/" + Hex(c as int) + ">")
  {
    var tail := CharLineTail(c, name);
    EndsWithAppend(CharLinePrefix + PaddedCode(c), tail, "/char/" + Hex(c as int) + ">");
    CharLinePrefix + PaddedCode(c) + tail
  }

  /** The rest of a `charinfo` line: the name (or a placeholder), the
      character, an em dash and the link. */
  function CharLineTail(c: char, name: Option<string>): (r: string)
    ensures c in r
    ensures EndsWith(r, "/char/" + Hex(c as int) + ">")
  {
    var shownName := match name case Some(n) => n case None => NameNotFound;
    var front := "`: " + shownName + " - " + [c];
    var link := "/char/" + Hex(c as int) + ">";
    ConcatEnds(front + " \U{2014} <http://www.fileformat.info/info/unicode", link);
    assert front[|front| - 1] == c;
    front + " \U{2014} <http://www.fileformat.info/info/unicode" + link
  }

  /** A code point needs at most six hex digits. */
  lemma CodePointHexWidth(c: char)
    ensures |Hex(c as int)| <= 6
  {
    assert Pow(16, 6) == 0x100_0000;
    ToBaseLength(c as int, 16, 6);
  }

  /** The padded code is exactly eight hex digits and reads back as the code
      point. */
  lemma PaddedCodeValue(c: char)
    ensures |PaddedCode(c)| == 8
    ensures IsNumeral(PaddedCode(c), 16)
    ensures FromBase(PaddedCode(c), 16) == c as int
  {
    var digits := Hex(c as int);
    CodePointHexWidth(c);
    var padded := PaddedCode(c);
    var zeros := padded[..8 - |digits|];
    assert padded == zeros + digits;
    FromBaseLeadingZeros(zeros, digits, 16);
    FromToBase(c as int, 16);
    forall i | 0 <= i < 8
      ensures DigitValue(padded[i]) < 16 && DigitChar(DigitValue(padded[i])) == padded[i]
    {
      if i >= 8 - |digits| {
        assert padded[i] == digits[i - (8 - |digits|)];
      }
    }
  }

  /** Every `charinfo` line starts with the backquoted `\U`, then exactly
      eight hex digits that read back as the character's code point. */
  lemma CharLineCodePoint(c: char, name: Option<string>)
    ensures |CharLine(c, name)| >= 11
    ensures CharLine(c, name)[..3] == CharLinePrefix
    ensures IsNumeral(CharLine(c, name)[3..11], 16)
    ensures FromBase(CharLine(c, name)[3..11], 16) == c as int
  {
    PaddedCodeValue(c);
    ConcatSlices(CharLinePrefix, PaddedCode(c), CharLineTail(c, name));
  }

  /** `charinfo`: one line per character of the input, in order. */
  function CharInfoLines(characters: string, nameOf: char -> Option<string>): (r: seq<string>)
    ensures |r| == |characters|
    ensures forall i :: 0 <= i < |characters| ==> r[i] == CharLine(characters[i], nameOf(characters[i]))
  {
    seq(|characters|, i requires 0 <= i < |characters| => CharLine(characters[i], nameOf(characters[i])))
  }

  /** The outcome of `fetch_user`. */
  datatype FetchOutcome<U> = Fetched(user: U) | UnknownUser | FetchFailed

  const NotUserId: string := "Not a valid user ID."
  const UserNotFound: string := "User not found."
  const FetchError: string := "An error occurred while fetching the user."

  /** The `FetchedUser` converter: an argument that is not all digits is
      refused before any fetch; otherwise the fetch decides. */
  function ConvertUser<U>(argument: string, fetch: string -> FetchOutcome<U>): (r: Result<U, string>)
    ensures !IsDigits(argument) ==> r == Err(NotUserId)
    ensures r.Ok? ==> IsDigits(argument) && fetch(argument) == Fetched(r.value)
    ensures r.Err? && IsDigits(argument) ==>
      (fetch(argument).UnknownUser? && r.error == UserNotFound)
      || (fetch(argument).FetchFailed? && r.error == FetchError)
  {
    if !IsDigits(argument) then Err(NotUserId)
    else match fetch(argument)
      case Fetched(user) => Ok(user)
      case UnknownUser => Err(UserNotFound)
      case FetchFailed => Err(FetchError)
  }

  /** Any user id written in decimal gets past the digit check and is
      looked up. */
  lemma DecimalIdsAreFetched<U>(id: nat, fetch: string -> FetchOutcome<U>)
    ensures ConvertUser(Decimal(id), fetch).Ok? <==> fetch(Decimal(id)).Fetched?
  {
    DecimalIsDigits(id);
  }

  /** What `inspect` reports for a command's callback: its module, the path
      of its file relative to the working directory, its first line and its
      number of lines. */
  datatype CodeSource = CodeSource(moduleName: string, relPath: string, firstLine: nat, lineCount: nat)

  const RepoUrl: string := "https://github.com/AbstractUmbra/Akane"
  const LibraryUrl: string := "https://github.com/Rapptz/discord.py"

  /** `#L{first}-L{first + count - 1}`. */
  function LineAnchor(first: int, count: int): string {
    "#L" + IntToString(first) + "-L" + IntToString(first + count - 1)
  }

  /** Reads `#L{a}-L{b}` back as `(a, b)`. */
  function ParseAnchor(s: string): Option<(nat, nat)> {
    if !StartsWith(s, "#L") then None
    else
      var pieces := Split(s[2..], '-');
      if |pieces| == 2 && IsDigits(pieces[0]) && |pieces[1]| >= 2 && pieces[1][0] == 'L'
         && IsDigits(pieces[1][1..])
      then Some((ParseDecimal(pieces[0]), ParseDecimal(pieces[1][1..])))
      else None
  }

  /** The anchor of a source of `count >= 1` lines names its first and its
      last line, so it spans exactly `count` lines. */
  lemma LineAnchorRoundTrip(first: nat, count: nat)
    requires count >= 1
    ensures ParseAnchor(LineAnchor(first, count)) == Some((first, first + count - 1))
  {
    var last: nat := first + count - 1;
    DecimalIsDigits(first);
    DecimalIsDigits(last);
    ParseAnchorOfDigits(Decimal(first), Decimal(last));
    DecimalRoundTrip(first);
    DecimalRoundTrip(last);
  }

  /** `#L{a}-L{d}` with digit strings `a` and `d` parses as their values. */
  lemma ParseAnchorOfDigits(a: string, d: string)
    requires IsDigits(a) && IsDigits(d)
    ensures ParseAnchor("#L" + a + "-L" + d) == Some((ParseDecimal(a), ParseDecimal(d)))
  {
    var b := "L" + d;
    assert '-' !in a by {
      forall i | 0 <= i < |a|
        ensures a[i] != '-'
      {
        assert IsAsciiDigit(a[i]);
      }
    }
    assert '-' !in b by {
      forall i | 0 <= i < |b|
        ensures b[i] != '-'
      {
        if i > 0 {
          assert b[i] == d[i - 1];
          assert IsAsciiDigit(d[i - 1]);
        }
      }
    }
    AnchorPieces(a, d);
    SplitJoin([a, b], '-');
    assert b[1..] == d;
  }

  /** `#L{a}-L{d}` is `#L` followed by the join of `a` and `L{d}` on `-`. */
  lemma AnchorPieces(a: string, d: string)
    ensures StartsWith("#L" + a + "-L" + d, "#L")
    ensures ("#L" + a + "-L" + d)[2..] == Join([a, "L" + d], "-")
  {
    var b := "L" + d;
    var body := Join([a, b], "-");
    assert [a, b][1..] == [b];
    assert Join([b], "-") == b;
    assert body == a + "-" + b;
    assert "#L" + a + "-L" + d == "#L" + body;
    ConcatEnds("#L", body);
  }

  /** Library commands are those whose module is in the `discord`
      package. */
  predicate IsLibraryCommand(src: CodeSource) {
    StartsWith(src.moduleName, "discord")
  }

  /** The repository a command's source lives in. */
  function Repository(src: CodeSource): string {
    if IsLibraryCommand(src) then LibraryUrl else RepoUrl
  }

  /** The branch linked to. */
  function Branch(src: CodeSource): string {
    if IsLibraryCommand(src) then "master" else "main"
  }

  /** The file within the repository: the module path for a library command,
      the relative file path with forward slashes otherwise. */
  function Location(src: CodeSource): string {
    if IsLibraryCommand(src) then Replace(src.moduleName, ".", "/") + ".py"
    else Replace(src.relPath, "\\", "/")
  }

  /** The link `source` sends for a command found at `src`. */
  function SourceLink(src: CodeSource): string {
    "<" + Repository(src) + "/blob/" + Branch(src) + "/" + Location(src)
      + LineAnchor(src.firstLine, src.lineCount) + ">"
  }

  /** The reply of `source`: the repository when no command is named, the help
      command's own source for `help`, otherwise the named command (dots
      standing for spaces) or an error when there is none. */
  function SourceReply(command: Option<string>, helpSource: CodeSource,
                       lookup: string -> Option<CodeSource>): (r: string)
    ensures command.None? ==> r == RepoUrl
    ensures command == Some("help") ==> r == SourceLink(helpSource)
    ensures command.Some? && command.value != "help" ==>
      var found := lookup(Replace(command.value, ".", " "));
      r == (if found.None? then "Could not find command." else SourceLink(found.value))
  {
    match command
    case None => RepoUrl
    case Some(name) =>
      if name == "help" then SourceLink(helpSource)
      else match lookup(Replace(name, ".", " "))
        case None => "Could not find command."
        case Some(src) => SourceLink(src)
  }

  /** A link opens with the repository its module selects and ends with
      the anchor of the command's lines, and a bot link's path never holds a
      backslash from a Windows path. */
  lemma SourceLinkShape(src: CodeSource)
    ensures StartsWith(SourceLink(src), "<" + Repository(src))
    ensures EndsWith(SourceLink(src), LineAnchor(src.firstLine, src.lineCount) + ">")
    ensures !IsLibraryCommand(src) ==> '\\' !in Location(src)
  {
    var head := "<" + Repository(src);
    var anchor := LineAnchor(src.firstLine, src.lineCount);
    ConcatEnds(head, "");
    assert head + "" == head;
    StartsWithExtend(head, head, "/blob/");
    StartsWithExtend(head + "/blob/", head, Branch(src));
    StartsWithExtend(head + "/blob/" + Branch(src), head, "/");
    StartsWithExtend(head + "/blob/" + Branch(src) + "/", head, Location(src));
    var file := head + "/blob/" + Branch(src) + "/" + Location(src);
    StartsWithExtend(file, head, anchor);
    StartsWithExtend(file + anchor, head, ">");
    EndsWithLastTwo(file, anchor, ">");
    if !IsLibraryCommand(src) {
      ReplaceCharPointwise(src.relPath, '\\', '/');
      assert forall i :: 0 <= i < |Location(src)| ==> Location(src)[i] != '\\';
    }
  }
}
