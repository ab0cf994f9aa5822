/** Delimiter inference, line parsing and whole-file extraction (dumper/parser.py). */
module Parser {
  import opened Wrappers
  import opened Strings
  import Csv

  /** A line as iterating over a text-mode file yields it: universal-newline
      translation leaves no carriage return, and a newline can only end the line. */
  predicate IsTextLine(s: string) {
    '\r' !in s && forall i | 0 <= i < |s| - 1 :: s[i] != '\n'
  }

  type TextLine = s: string | IsTextLine(s) witness []

  /** An extracted (email, password) pair. */
  datatype Credential = Credential(email: string, password: string)

  // ---------------------------------------------------------------- detect_delimiter

  /** The candidate delimiters, in the order used to break ties. */
  const Delimiters: seq<char> := [',', ';', ':', '\t']

  /** How many of `lines` contain `d` at least once. */
  function LinesContaining(lines: seq<string>, d: char): (n: nat)
    ensures n <= |lines|
  {
    if lines == [] then 0
    else LinesContaining(lines[..|lines| - 1], d) + (if d in lines[|lines| - 1] then 1 else 0)
  }

  /** The indices of the lines that contain `d`. */
  function IndicesContaining(lines: seq<string>, d: char): set<nat> {
    set i: nat | i < |lines| && d in lines[i]
  }

  /** The count is of lines, not of occurrences: it is the number of line indices
      whose line contains the character. */
  lemma {:induction false} LinesContainingCountsLines(lines: seq<string>, d: char)
    ensures LinesContaining(lines, d) == |IndicesContaining(lines, d)|
  {
    if lines != [] {
      var n := |lines| - 1;
      var init := lines[..n];
      LinesContainingCountsLines(init, d);
      var before := IndicesContaining(init, d);
      var after := IndicesContaining(lines, d);
      if d in lines[n] {
        assert after == before + {n};
        assert n !in before;
      } else {
        assert after == before;
      }
    }
  }

  lemma CandidatesCountLines(sample: seq<string>)
    ensures forall c | c in Delimiters :: LinesContaining(sample, c) == |IndicesContaining(sample, c)|
  {
    forall c | c in Delimiters ensures LinesContaining(sample, c) == |IndicesContaining(sample, c)| {
      LinesContainingCountsLines(sample, c);
    }
  }

  /** The per-candidate counts as `detect_delimiter` leaves them in its dictionary:
      each candidate maps to the number of sampled lines that contain it. */
  function DelimiterCounts(sample: seq<string>): (counts: map<char, nat>)
    ensures counts.Keys == set c | c in Delimiters
    ensures forall c | c in Delimiters :: counts[c] == |IndicesContaining(sample, c)|
  {
    CandidatesCountLines(sample);
    map c | c in Delimiters :: LinesContaining(sample, c)
  }

  /** `max(keys, key=counts.get)`: the index of the first key whose count is largest. */
  function FirstMaxIndex(keys: seq<char>, counts: map<char, nat>): (i: nat)
    requires |keys| > 0 && forall k | 0 <= k < |keys| :: keys[k] in counts
    ensures i < |keys|
    ensures forall k | 0 <= k < |keys| :: counts[keys[k]] <= counts[keys[i]]
    ensures forall k | 0 <= k < i :: counts[keys[k]] < counts[keys[i]]
  {
    if |keys| == 1 then 0
    else
      var m := FirstMaxIndex(keys[..|keys| - 1], counts);
      if counts[keys[|keys| - 1]] > counts[keys[m]] then |keys| - 1 else m
  }

  /** The delimiter `detect_delimiter` picks for a sample: one of the four candidates,
      held by at least as many lines as any other, strictly more than every candidate
      listed before it; a comma when no sampled line holds any candidate. */
  function Delimiter(sample: seq<string>): (d: char)
    ensures d in Delimiters && d != Csv.Quote
    ensures (forall c | c in Delimiters :: LinesContaining(sample, c) == 0) ==> d == ','
    ensures forall c | c in Delimiters :: LinesContaining(sample, c) <= LinesContaining(sample, d)
    ensures forall k, j | 0 <= k < j < |Delimiters| && Delimiters[j] == d ::
              LinesContaining(sample, Delimiters[k]) < LinesContaining(sample, d)
  {
    var counts := DelimiterCounts(sample);
    var i := FirstMaxIndex(Delimiters, counts);
    var mostCommon := Delimiters[i];
    if counts[mostCommon] > 0 then mostCommon else ','
  }

  /** The inner loop of `detect_delimiter`: adds one to the count of every candidate
      the line contains. */
  method TallyLine(counts: map<char, nat>, line: string) returns (updated: map<char, nat>)
    requires counts.Keys == set c | c in Delimiters
    ensures updated.Keys == counts.Keys
    ensures forall c | c in Delimiters :: updated[c] == counts[c] + (if c in line then 1 else 0)
  {
    updated := counts;
    for j := 0 to |Delimiters|
      invariant updated.Keys == counts.Keys
      invariant forall k | 0 <= k < j :: updated[Delimiters[k]] == counts[Delimiters[k]] + (if Delimiters[k] in line then 1 else 0)
      invariant forall k | j <= k < |Delimiters| :: updated[Delimiters[k]] == counts[Delimiters[k]]
    {
      var c := Delimiters[j];
      if c in line {
        updated := updated[c := updated[c] + 1];
      }
    }
  }

  /** `detect_delimiter`: counts, for each candidate, the sampled lines that contain it,
      and takes the first most frequent one, or a comma when none occurs. */
  method DetectDelimiter(sampleLines: seq<string>) returns (d: char)
    ensures d == Delimiter(sampleLines)
  {
    var delimiterCounts: map<char, nat> := map c | c in Delimiters :: 0;
    for i := 0 to |sampleLines|
      invariant delimiterCounts.Keys == set c | c in Delimiters
      invariant forall c | c in Delimiters :: delimiterCounts[c] == LinesContaining(sampleLines[..i], c)
    {
      assert sampleLines[..i + 1][..i] == sampleLines[..i];
      delimiterCounts := TallyLine(delimiterCounts, sampleLines[i]);
    }
    assert sampleLines[..|sampleLines|] == sampleLines;
    assert delimiterCounts == DelimiterCounts(sampleLines);
    var mostCommon := Delimiters[FirstMaxIndex(Delimiters, delimiterCounts)];
    d := if delimiterCounts[mostCommon] > 0 then mostCommon else ',';
  }

  // ---------------------------------------------------------------- parse_line

  /** The two characters that open an inline comment in the secret. */
  const CommentMarker: string := " #"

  /** The secret after inline-comment removal: cut at the first " #" and re-stripped
      when an even number of quotes precede it, otherwise left as it is. */
  function StripComment(password: string): (r: string)
    ensures |r| <= |password|
  {
    match Find(password, CommentMarker)
    case None => password
    case Some(commentStart) =>
      var before := password[..commentStart];
      if Count(before, Csv.Quote) % 2 == 0 then Strip(before) else password
  }

  /** The secret is left alone exactly when it has no marker or the marker sits
      inside an open quote; otherwise it becomes the text before the first marker
      with whitespace removed at both ends, which is shorter and marker-free; a
      stripped secret stays stripped. */
  lemma StripCommentSpec(password: string)
    ensures var r := StripComment(password);
      && (Strip(password) == password ==> Strip(r) == r)
      && (r == password <==>
            (Find(password, CommentMarker).None? ||
             Count(password[..Find(password, CommentMarker).value], Csv.Quote) % 2 == 1))
      && (r != password ==> |r| < |password| && Find(r, CommentMarker).None?)
      && (r != password ==> Find(password, CommentMarker).Some? &&
                            r == Strip(password[..Find(password, CommentMarker).value]))
  {
    match Find(password, CommentMarker)
    case None =>
    case Some(commentStart) =>
      var before := password[..commentStart];
      if Count(before, Csv.Quote) % 2 == 0 {
        StripIdempotent(before);
        NoMarkerBeforeFirst(password, commentStart);
        StripNoMarker(before);
      }
  }

  /** Nothing before the first occurrence of the marker contains it. */
  lemma NoMarkerBeforeFirst(s: string, k: nat)
    requires k <= |s| && forall j | 0 <= j < k :: !OccursAt(s, CommentMarker, j)
    ensures forall j | 0 <= j <= k :: !OccursAt(s[..k], CommentMarker, j)
  {
    forall j | 0 <= j <= k ensures !OccursAt(s[..k], CommentMarker, j) {
      assert |CommentMarker| == 2;
      if j + 2 <= k {
        assert s[..k][j..j + 2] == s[j..j + 2];
        assert !OccursAt(s, CommentMarker, j);
      }
    }
  }

  /** Stripping a string free of the marker cannot create one. */
  lemma StripNoMarker(s: string)
    requires forall j | 0 <= j <= |s| :: !OccursAt(s, CommentMarker, j)
    ensures Find(Strip(s), CommentMarker).None?
  {
    var r := Strip(s);
    if r != [] {
      StripStart(s);
      var i := SkipSpace(s, 0);
      assert r == s[i..i + |r|];
      forall j | 0 <= j <= |r| ensures !OccursAt(r, CommentMarker, j) {
        if j + 2 <= |r| {
          assert r[j] == s[i + j] && r[j + 1] == s[i + j + 1];
          assert r[j..j + 2] == [r[j], r[j + 1]];
          assert s[i + j..i + j + 2] == [s[i + j], s[i + j + 1]];
          assert !OccursAt(s, CommentMarker, i + j);
        }
      }
    }
  }

  /** The shape `re.match(r"[^@]+@[^@]+\.[^@]+", email)` accepts: the email *begins*
      with at least one non-@ character, an '@', at least one non-@ character, a '.'
      and one more non-@ character. `re.match` anchors only the start, so anything,
      further '@' characters included, may follow. */
  predicate MatchesEmailPattern(email: string) {
    exists at, dot | 0 <= at < |email| && 0 <= dot < |email| :: PatternAt(email, at, dot)
  }

  /** The pattern matched with its '@' at `at` and its '.' at `dot`. */
  predicate PatternAt(email: string, at: nat, dot: nat) {
    0 < at && at + 1 < dot && dot + 1 < |email| &&
    email[at] == '@' && '@' !in email[..at] && '@' !in email[at + 1..dot] &&
    email[dot] == '.' && email[dot + 1] != '@'
  }

  /** The text between the first '@' and the next '@' (or the end). */
  function DomainPart(s: string): (d: string)
    ensures '@' !in d && |d| <= |s|
    ensures d == s[..|d|]
    ensures |d| < |s| ==> s[|d|] == '@'
  {
    if s == [] || s[0] == '@' then [] else [s[0]] + DomainPart(s[1..])
  }

  /** The first index of `c` in `s`. */
  function IndexOf(s: string, c: char): (r: Option<nat>)
    ensures r.Some? ==> r.value < |s| && s[r.value] == c && c !in s[..r.value]
    ensures r.None? ==> c !in s
  {
    if s == [] then None
    else if s[0] == c then Some(0)
    else match IndexOf(s[1..], c)
      case None => None
      case Some(k) =>
        assert s[..k + 1] == [s[0]] + s[1..][..k];
        Some(k + 1)
  }

  /** The pattern read structurally: a non-empty local part before the first '@',
      then a domain (up to any next '@') holding a '.' that has a character on each
      side within the domain. */
  predicate EmailShape(email: string) {
    match IndexOf(email, '@')
    case None => false
    case Some(at) => ShapeAt(email, at)
  }

  /** The shape after the first '@', found at `at`. */
  predicate ShapeAt(email: string, at: nat)
    requires at < |email|
  {
    var domain := DomainPart(email[at + 1..]);
    at > 0 && |domain| >= 3 && '.' in domain[1..|domain| - 1]
  }

  lemma EmailPatternShape(email: string)
    ensures MatchesEmailPattern(email) <==> EmailShape(email)
  {
    if MatchesEmailPattern(email) {
      PatternGivesShape(email);
    }
    if EmailShape(email) {
      ShapeGivesPattern(email);
    }
  }

  lemma PatternGivesShape(email: string)
    requires MatchesEmailPattern(email)
    ensures EmailShape(email)
  {
    var at: nat, dot: nat :| PatternAt(email, at, dot);
    assert PatternAt(email, at, dot);
    FirstIndex(email, '@', at);
    var rest := email[at + 1..];
    var p := dot - at - 1;
    assert rest[..p + 2] == email[at + 1..dot] + [email[dot], email[dot + 1]];
    DomainAtLeast(rest, p + 2);
    var domain := DomainPart(rest);
    assert domain == rest[..|domain|];
    assert domain[p] == '.';
    var inner := domain[1..|domain| - 1];
    assert inner[p - 1] == '.';
    assert |domain| >= 3 && '.' in inner;
    assert ShapeAt(email, at);
  }

  lemma FirstIndex(s: string, c: char, i: nat)
    requires i < |s| && s[i] == c && c !in s[..i]
    ensures IndexOf(s, c) == Some(i)
  {
  }

  lemma DomainAtLeast(s: string, n: nat)
    requires n <= |s| && '@' !in s[..n]
    ensures |DomainPart(s)| >= n
  {
  }

  lemma ShapeGivesPattern(email: string)
    requires EmailShape(email)
    ensures MatchesEmailPattern(email)
  {
    var at := IndexOf(email, '@').value;
    var rest := email[at + 1..];
    var domain := DomainPart(rest);
    var inner := domain[1..|domain| - 1];
    var q :| 0 <= q < |inner| && inner[q] == '.';
    var p := q + 1;
    var dot := at + 1 + p;
    assert domain[..p] == rest[..p];
    assert rest[..p] == email[at + 1..dot];
    assert email[dot] == domain[p];
    assert email[dot + 1] == domain[p + 1];
    assert PatternAt(email, at, dot);
  }

  /** The fields `csv.reader` produces for the stripped line. */
  function LineFields(line: string, delimiter: char): seq<string>
    requires Strip(line) != [] && delimiter != Csv.Quote
  {
    Csv.ReadRecord(Strip(line), delimiter)
  }

  /** `parse_line`: `None` for blank lines, `#` lines and lines of fewer than two
      fields; otherwise the first two fields, stripped, with the inline comment
      removed from the second, provided the first has the email shape. */
  function ParseLine(line: TextLine, delimiter: char): (r: Option<Credential>)
    requires delimiter != Csv.Quote
  {
    var stripped := Strip(line);
    if stripped == [] || stripped[0] == '#' then None
    else
      var parts := Csv.ReadRecord(stripped, delimiter);
      if |parts| >= 2 then
        var email := Strip(parts[0]);
        var password := StripComment(Strip(parts[1]));
        if EmailShape(email) then Some(Credential(email, password)) else None
      else None
  }

  /** A line yields a credential exactly when, once stripped, it is neither blank
      nor a `#` comment, it has at least two fields and its stripped first field
      matches the email pattern; the credential is that field and the stripped,
      comment-free second field. */
  lemma ParseLineSpec(line: TextLine, delimiter: char)
    requires delimiter != Csv.Quote
    ensures var r := ParseLine(line, delimiter);
      && (Strip(line) == [] || Strip(line)[0] == '#' ==> r.None?)
      && (Strip(line) != [] && |LineFields(line, delimiter)| < 2 ==> r.None?)
      && (r.Some? <==>
            Strip(line) != [] && Strip(line)[0] != '#' && |LineFields(line, delimiter)| >= 2 &&
            MatchesEmailPattern(Strip(LineFields(line, delimiter)[0])))
      && (r.Some? ==> Strip(line) != [] && |LineFields(line, delimiter)| >= 2 &&
                      r.value.email == Strip(LineFields(line, delimiter)[0]) &&
                      r.value.password == StripComment(Strip(LineFields(line, delimiter)[1])))
  {
    var stripped := Strip(line);
    if stripped != [] && stripped[0] != '#' {
      var parts := LineFields(line, delimiter);
      if |parts| >= 2 {
        EmailPatternShape(Strip(parts[0]));
      }
    }
  }

  /** `str.strip` leaves no line break in a line read from a text file. */
  lemma StrippedTextLine(line: TextLine)
    ensures '\n' !in Strip(line) && '\r' !in Strip(line)
  {
    StripKeepsOut(line, '\r');
    var r := Strip(line);
    if r != [] {
      StripStart(line);
      var i := SkipSpace(line, 0);
      forall m | 0 <= m < |r| ensures r[m] != '\n' {
        if m < |r| - 1 {
          assert r[m] == line[i + m];
          assert i + m < |line| - 1;
        }
      }
    }
  }

  lemma StripCommentKeepsOut(password: string, c: char)
    requires c !in password
    ensures c !in StripComment(password)
  {
    match Find(password, CommentMarker)
    case None =>
    case Some(k) =>
      assert c !in password[..k];
      StripKeepsOut(password[..k], c);
  }

  /** Extracted fields never hold a line break. */
  lemma ParsedHasNoBreaks(line: TextLine, delimiter: char)
    requires delimiter != Csv.Quote && ParseLine(line, delimiter).Some?
    ensures var c := ParseLine(line, delimiter).value;
            '\n' !in c.email && '\r' !in c.email && '\n' !in c.password && '\r' !in c.password
  {
    ParseLineSpec(line, delimiter);
    var fields := LineFields(line, delimiter);
    StrippedTextLine(line);
    Csv.RecordKeepsOut(Strip(line), delimiter, '\n');
    Csv.RecordKeepsOut(Strip(line), delimiter, '\r');
    StripKeepsOut(fields[0], '\n');
    StripKeepsOut(fields[0], '\r');
    StripKeepsOut(fields[1], '\n');
    StripKeepsOut(fields[1], '\r');
    StripCommentKeepsOut(Strip(fields[1]), '\n');
    StripCommentKeepsOut(Strip(fields[1]), '\r');
  }

  lemma {:induction false} SplitOnSingle(s: string, sep: char)
    requires sep !in s
    ensures Csv.SplitOn(s, sep) == [s]
  {
    if s != [] {
      SplitOnSingle(s[1..], sep);
      assert [s[0]] + s[1..] == s;
    }
  }

  lemma {:induction false} SplitOnPair(a: string, b: string, sep: char)
    requires sep !in a && sep !in b
    ensures Csv.SplitOn(a + [sep] + b, sep) == [a, b]
  {
    if a == [] {
      assert a + [sep] + b == [sep] + b;
      SplitOnSingle(b, sep);
    } else {
      SplitOnPair(a[1..], b, sep);
      assert (a + [sep] + b)[1..] == a[1..] + [sep] + b;
      assert [a[0]] + a[1..] == a;
    }
  }

  /** The line `email + delimiter + password` built from a stripped, quote-free,
      break-free pair is a text line, is already stripped and splits back into the
      pair. */
  lemma JoinedPairFields(e: string, p: string, delimiter: char)
    requires delimiter in Delimiters && delimiter !in e && delimiter !in p
    requires Csv.Quote !in e && Csv.Quote !in p
    requires '\n' !in e && '\r' !in e && '\n' !in p && '\r' !in p
    requires e != [] && Strip(e) == e && Strip(p) == p && (p != [] || delimiter != '\t')
    ensures IsTextLine(e + [delimiter] + p)
    ensures Strip(e + [delimiter] + p) == e + [delimiter] + p
    ensures LineFields(e + [delimiter] + p, delimiter) == [e, p]
  {
    var again := e + [delimiter] + p;
    assert forall x | x in again :: x in e || x == delimiter || x in p;
    assert '\n' !in again && '\r' !in again && Csv.Quote !in again;
    assert Strip(again) == again by {
      assert again[0] == e[0];
      assert again[|again| - 1] == if p == [] then delimiter else p[|p| - 1];
      StripStripped(again);
    }
    assert LineFields(again, delimiter) == [e, p] by {
      Csv.QuoteFreeRecord(again, delimiter);
      SplitOnPair(e, p, delimiter);
    }
  }

  /** A stripped secret with no quote before its first marker has no marker left. */
  lemma CommentFreeSecret(p: string, q: string)
    requires p == StripComment(q) && Csv.Quote !in p
    ensures Find(p, CommentMarker).None?
  {
    StripCommentSpec(q);
  }

  /** Writing an extracted pair back as `email + delimiter + password` and parsing
      that line gives the same pair, as long as neither part holds the delimiter or a
      quote, the email does not open with '#', and a tab delimiter is not left
      trailing by an empty password. */
  lemma ReparseCredential(line: TextLine, delimiter: char)
    requires delimiter in Delimiters && ParseLine(line, delimiter).Some?
    requires var c := ParseLine(line, delimiter).value;
             delimiter !in c.email && delimiter !in c.password &&
             Csv.Quote !in c.email && Csv.Quote !in c.password &&
             c.email[0] != '#' && (c.password != [] || delimiter != '\t')
    ensures var c := ParseLine(line, delimiter).value;
            IsTextLine(c.email + [delimiter] + c.password) &&
            ParseLine(c.email + [delimiter] + c.password, delimiter) == Some(c)
  {
    var c := ParseLine(line, delimiter).value;
    var e, p := c.email, c.password;
    var fields := LineFields(line, delimiter);
    assert e == Strip(fields[0]) && p == StripComment(Strip(fields[1])) && EmailShape(e);
    ParsedHasNoBreaks(line, delimiter);
    StripIdempotent(fields[0]);
    StripCommentSpec(Strip(fields[1]));
    StripIdempotent(fields[1]);
    CommentFreeSecret(p, Strip(fields[1]));
    JoinedPairFields(e, p, delimiter);
    var again := e + [delimiter] + p;
    assert StripComment(Strip(p)) == p;
    assert ParseLine(again, delimiter) == Some(Credential(e, p));
  }

  // ---------------------------------------------------------------- parse_file

  /** The credentials collected from every line of a file, in line order. */
  function ExtractPairs(lines: seq<TextLine>, delimiter: char): (r: seq<Credential>)
    requires delimiter != Csv.Quote
    ensures |r| <= |lines|
  {
    if lines == [] then []
    else
      var init := ExtractPairs(lines[..|lines| - 1], delimiter);
      match ParseLine(lines[|lines| - 1], delimiter)
      case None => init
      case Some(c) => init + [c]
  }

  /** A one-line file yields that line's credential, if any. */
  lemma ExtractPairsSingle(line: TextLine, delimiter: char)
    requires delimiter != Csv.Quote
    ensures ExtractPairs([line], delimiter) ==
              match ParseLine(line, delimiter) case None => [] case Some(c) => [c]
  {
    assert [line][..0] == [];
  }

  /** Every email of `credentials` matches the pattern. */
  predicate AllEmailsMatch(credentials: seq<Credential>) {
    forall k | 0 <= k < |credentials| :: MatchesEmailPattern(credentials[k].email)
  }

  /** Every extracted email matches the pattern. */
  lemma {:induction false} ExtractedEmailsMatch(lines: seq<TextLine>, delimiter: char)
    requires delimiter != Csv.Quote
    ensures AllEmailsMatch(ExtractPairs(lines, delimiter))
  {
    if lines != [] {
      var n := |lines| - 1;
      ExtractedEmailsMatch(lines[..n], delimiter);
      ParseLineSpec(lines[n], delimiter);
    }
  }

  /** Extraction distributes over splitting the file in two. */
  lemma {:induction false} ExtractPairsAppend(a: seq<TextLine>, b: seq<TextLine>, delimiter: char)
    requires delimiter != Csv.Quote
    ensures ExtractPairs(a + b, delimiter) == ExtractPairs(a, delimiter) + ExtractPairs(b, delimiter)
  {
    if b == [] {
      assert a + b == a;
    } else {
      var n := |b| - 1;
      assert (a + b)[..|a + b| - 1] == a + b[..n];
      assert (a + b)[|a + b| - 1] == b[n];
      ExtractPairsAppend(a, b[..n], delimiter);
    }
  }

  /** What a directory walk may hand to `parse_file`. */
  datatype EntryKind = Directory | RegularFile | OtherEntry

  /** The decoded lines of a file, or the reason opening or reading it failed. */
  datatype FileContent = Readable(lines: seq<TextLine>) | Unreadable(reason: string)

  /** The number of leading lines sampled for delimiter detection. */
  const SampleSize: nat := 10

  /** The message of the exception `parse_file` re-raises with the path for context. */
  function ParseError(path: string, detail: string): string {
    "Error parsing file " + path + ": " + detail
  }

  /** What `parse_file` returns or raises. Ignored names and anything that is not a
      regular file give no credentials; an unreadable file, and (because the sample is
      drawn with ten unguarded `next` calls, whose `StopIteration` carries an empty
      message) any file of fewer than ten lines, fail with the wrapped message;
      otherwise every line is parsed with the delimiter detected on the first ten.
      `ignored` is the package's list of ignored names, `Dumper.IgnoredFiles`. */
  function FileCredentials(path: string, kind: EntryKind, content: FileContent, ignored: set<string>): Result<seq<Credential>, string>
  {
    if BaseName(path) in ignored || kind != RegularFile then Success([])
    else match content
      case Unreadable(reason) => Failure(ParseError(path, reason))
      case Readable(lines) =>
        if |lines| < SampleSize then Failure(ParseError(path, ""))
        else Success(ExtractPairs(lines, Delimiter(lines[..SampleSize])))
  }

  /** Ignored names and non-files give no credentials; a file fails exactly when it
      is an unignored regular file that cannot be read or has fewer than ten lines,
      with the path-wrapped message. */
  lemma FileCredentialsOutcome(path: string, kind: EntryKind, content: FileContent, ignored: set<string>)
    ensures var r := FileCredentials(path, kind, content, ignored);
      && (BaseName(path) in ignored || kind != RegularFile ==> r == Success([]))
      && (r.Failure? <==>
            BaseName(path) !in ignored && kind == RegularFile &&
            (content.Unreadable? || |content.lines| < SampleSize))
      && (r.Failure? && content.Unreadable? ==> r.error == ParseError(path, content.reason))
      && (r.Failure? && content.Readable? ==> r.error == ParseError(path, ""))
  {
  }

  /** An ignored name or a non-file succeeds with no credentials. */
  lemma SkippedFileCredentials(path: string, kind: EntryKind, content: FileContent, ignored: set<string>)
    requires BaseName(path) in ignored || kind != RegularFile
    ensures FileCredentials(path, kind, content, ignored) == Success([])
  {
  }

  /** An unreadable or short regular file fails. */
  lemma FailedFileCredentials(path: string, kind: EntryKind, content: FileContent, ignored: set<string>)
    requires BaseName(path) !in ignored && kind == RegularFile
    requires content.Unreadable? || |content.lines| < SampleSize
    ensures FileCredentials(path, kind, content, ignored).Failure?
  {
  }

  /** A readable regular file of ten lines or more yields the credentials of all its
      lines under the delimiter detected on the first ten, all with matching emails. */
  lemma ParsedFileCredentials(path: string, kind: EntryKind, lines: seq<TextLine>, ignored: set<string>)
    requires BaseName(path) !in ignored && kind == RegularFile && |lines| >= SampleSize
    ensures var d := Delimiter(lines[..SampleSize]);
      && FileCredentials(path, kind, Readable(lines), ignored) == Success(ExtractPairs(lines, d))
      && AllEmailsMatch(ExtractPairs(lines, d))
  {
    ExtractedEmailsMatch(lines, Delimiter(lines[..SampleSize]));
  }

  /** Every credential of a parsed file has an email matching the pattern. */
  lemma FileCredentialsEmails(path: string, kind: EntryKind, content: FileContent, ignored: set<string>)
    ensures var r := FileCredentials(path, kind, content, ignored);
      r.Success? ==> AllEmailsMatch(r.value)
  {
    if BaseName(path) in ignored || kind != RegularFile {
      SkippedFileCredentials(path, kind, content, ignored);
    } else if content.Unreadable? || |content.lines| < SampleSize {
      FailedFileCredentials(path, kind, content, ignored);
    } else {
      ParsedFileCredentials(path, kind, content.lines, ignored);
    }
  }

  /** The line loop of `parse_file`: parses every line with the detected delimiter
      and appends each credential found. */
  method CollectCredentials(lines: seq<TextLine>, delimiter: char) returns (credentials: seq<Credential>)
    requires delimiter != Csv.Quote
    ensures credentials == ExtractPairs(lines, delimiter)
  {
    credentials := [];
    for i := 0 to |lines|
      invariant credentials == ExtractPairs(lines[..i], delimiter)
    {
      assert lines[..i + 1][..i] == lines[..i];
      var result := ParseLine(lines[i], delimiter);
      if result.Some? {
        credentials := credentials + [result.value];
      }
    }
    assert lines[..|lines|] == lines;
  }

  /** `parse_file`: skips ignored names and non-files, samples the first ten lines,
      detects the delimiter, then collects the credential of every accepted line. */
  method ParseFile(filePath: string, kind: EntryKind, content: FileContent, ignored: set<string>) returns (r: Result<seq<Credential>, string>)
    ensures r == FileCredentials(filePath, kind, content, ignored)
  {
    if BaseName(filePath) in ignored {
      return Success([]);
    }
    if kind != RegularFile {
      return Success([]);
    }
    match content {
      case Unreadable(reason) =>
        return Failure(ParseError(filePath, reason));
      case Readable(lines) =>
        if |lines| < SampleSize {
          return Failure(ParseError(filePath, ""));
        }
        var sampleLines := lines[..SampleSize];
        var delimiter := DetectDelimiter(sampleLines);
        var credentials := CollectCredentials(lines, delimiter);
        return Success(credentials);
    }
  }
}
