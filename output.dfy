/** `dumper/output.py`: cutting the deduplicated credentials into chunks, naming
    one CSV file per chunk (or a single file), counting what has been written, and
    the CSV serialisation of each file. Files are modelled as the list of
    `write_csv` calls it makes, in order: each names a path and the records that
    go into it, and `CsvDocument` gives the text those records become. */
module Output {
  import opened Wrappers
  import opened Strings
  import Csv
  import Parser

  type Credential = Parser.Credential

  // ---------------------------------------------------------------- split_list

  function Min(a: int, b: int): int {
    if a <= b then a else b
  }

  /** `split_list(lst, n)`, the slices `lst[i:i + n]` for `i` in `range(0, len(lst), n)`.
      A negative step gives an empty range and so no chunks; a zero step makes
      `range` raise, which the caller never reaches because zero is falsy. */
  function SplitList<T>(lst: seq<T>, n: int): (chunks: seq<seq<T>>)
    requires n != 0
    decreases |lst|
  {
    if n < 0 || lst == [] then []
    else if |lst| <= n then [lst]
    else [lst[..n]] + SplitList(lst[n..], n)
  }

  /** The concatenation of a list of chunks. */
  function Flatten<T>(chunks: seq<seq<T>>): seq<T> {
    if chunks == [] then [] else Flatten(chunks[..|chunks| - 1]) + chunks[|chunks| - 1]
  }

  lemma {:induction false} FlattenAppend<T>(a: seq<seq<T>>, b: seq<seq<T>>)
    ensures Flatten(a + b) == Flatten(a) + Flatten(b)
    decreases |b|
  {
    if b == [] {
      assert a + b == a;
    } else {
      var n := |b| - 1;
      assert (a + b)[..|a + b| - 1] == a + b[..n];
      assert (a + b)[|a + b| - 1] == b[n];
      FlattenAppend(a, b[..n]);
    }
  }

  lemma FlattenCons<T>(x: seq<T>, rest: seq<seq<T>>)
    ensures Flatten([x] + rest) == x + Flatten(rest)
  {
    FlattenAppend([x], rest);
    assert [x][..0] == [];
  }

  /** The chunks concatenate back to the list. */
  lemma {:induction false} SplitListFlatten<T>(lst: seq<T>, n: int)
    requires n > 0
    ensures Flatten(SplitList(lst, n)) == lst
    decreases |lst|
  {
    if lst != [] {
      if |lst| <= n {
        assert [lst][..0] == [];
      } else {
        SplitListFlatten(lst[n..], n);
        FlattenCons(lst[..n], SplitList(lst[n..], n));
        assert lst[..n] + lst[n..] == lst;
      }
    }
  }

  lemma MulStep(a: int, n: int)
    ensures (a + 1) * n == a * n + n
  {
  }

  /** `split_list` gives no chunk exactly for the empty list. */
  lemma SplitListEmpty<T>(lst: seq<T>, n: int)
    requires n > 0
    ensures SplitList(lst, n) == [] <==> lst == []
  {
  }

  /** Every chunk but the last holds exactly `n` elements and the last between one
      and `n`. */
  lemma {:induction false} SplitListSizes<T>(lst: seq<T>, n: int)
    requires n > 0
    ensures var chunks := SplitList(lst, n);
      && (forall k | 0 <= k < |chunks| - 1 :: |chunks[k]| == n)
      && (chunks != [] ==> 1 <= |chunks[|chunks| - 1]| <= n)
    decreases |lst|
  {
    if lst != [] && |lst| > n {
      var rest := SplitList(lst[n..], n);
      SplitListSizes(lst[n..], n);
      SplitListEmpty(lst[n..], n);
      var chunks := [lst[..n]] + rest;
      assert SplitList(lst, n) == chunks;
      forall k | 0 <= k < |chunks| - 1 ensures |chunks[k]| == n {
        if k > 0 {
          assert chunks[k] == rest[k - 1];
        }
      }
    }
  }

  /** There are ceil(len / n) chunks: `(chunks - 1) * n < len <= chunks * n`. */
  lemma {:induction false} SplitListCount<T>(lst: seq<T>, n: int)
    requires n > 0 && lst != []
    ensures var c := |SplitList(lst, n)|;
      (c - 1) * n < |lst| <= c * n
    decreases |lst|
  {
    if |lst| > n {
      var rest := lst[n..];
      SplitListCount(rest, n);
      var c := |SplitList(rest, n)|;
      assert |SplitList(lst, n)| == c + 1;
      MulStep(c, n);
      MulStep(c - 1, n);
    }
  }

  /** Chunk `k` is the slice the comprehension takes at `i = k * n`. */
  lemma {:induction false} SplitListChunk<T>(lst: seq<T>, n: int, k: nat)
    requires n > 0 && k < |SplitList(lst, n)|
    ensures k * n < |lst|
    ensures SplitList(lst, n)[k] == lst[k * n..Min(k * n + n, |lst|)]
    decreases |lst|
  {
    if |lst| > n && k > 0 {
      var rest := lst[n..];
      SplitListChunk(rest, n, k - 1);
      assert (k - 1) * n + n == k * n;
      assert rest[(k - 1) * n..Min((k - 1) * n + n, |rest|)] == lst[k * n..Min(k * n + n, |lst|)];
    }
  }

  /** A negative split size yields no chunks at all. */
  lemma SplitListNegative<T>(lst: seq<T>, n: int)
    requires n < 0
    ensures SplitList(lst, n) == []
  {
  }

  // ---------------------------------------------------------------- write_csv_sync

  /** The header row `write_csv_sync` writes first. */
  const Header: seq<string> := ["email", "password"]

  /** The writer's default separator. */
  const Comma: char := ','

  /** One record as the `QUOTE_ALL` writer emits it: every field quoted, inner quotes
      doubled, fields separated by commas, terminated by `\r\n`. */
  function Record(fields: seq<string>): string
    requires |fields| >= 1
  {
    Csv.FormatRow(fields, Comma) + Csv.LineTerminator
  }

  /** `write_csv_sync`: the file holds the header record and then one record per
      `(email, password)` pair, in order. */
  function CsvDocument(data: seq<Credential>): string {
    if data == [] then Record(Header)
    else CsvDocument(data[..|data| - 1]) + Record([data[|data| - 1].email, data[|data| - 1].password])
  }

  /** Appending a pair appends exactly its record: the rows are written in input order. */
  lemma CsvDocumentAppend(data: seq<Credential>, c: Credential)
    ensures CsvDocument(data + [c]) == CsvDocument(data) + Record([c.email, c.password])
  {
    assert (data + [c])[..|data|] == data;
  }

  /** A field without quotes is written unchanged between its two quotes. */
  lemma {:induction false} EscapePlain(f: string)
    requires Csv.Quote !in f
    ensures Csv.Escape(f) == f
  {
    if f != [] {
      assert f[0] != Csv.Quote;
      EscapePlain(f[1..]);
    }
  }

  /** Every file starts with the header record. */
  lemma {:induction false} CsvDocumentHeader(data: seq<Credential>)
    ensures |Record(Header)| <= |CsvDocument(data)|
    ensures CsvDocument(data)[..|Record(Header)|] == Record(Header)
  {
    if data != [] {
      var init := data[..|data| - 1];
      var c := data[|data| - 1];
      assert init + [c] == data;
      CsvDocumentHeader(init);
      CsvDocumentAppend(init, c);
    }
  }

  /** Every record reads back, through the reader with a comma separator, as the row
      that was written, whatever quotes or separators its fields hold. */
  lemma RecordReadsBack(fields: seq<string>)
    requires |fields| >= 1
    ensures Csv.ReadRecord(Csv.FormatRow(fields, Comma), Comma) == fields
  {
    Csv.FormattedRecord(fields, Comma);
  }

  /** A written field grows by one character per quote it holds, plus the two
      surrounding quotes. */
  lemma {:induction false} EscapeLength(f: string)
    ensures |Csv.Escape(f)| == |f| + Count(f, Csv.Quote)
  {
    if f != [] {
      EscapeLength(f[1..]);
    }
  }

  // ---------------------------------------------------------------- write_output

  /** One `write_csv(path, data)` call: the file at `path` receives `CsvDocument(data)`. */
  datatype OutputFile = OutputFile(path: string, data: seq<Credential>)

  /** `directory / name`. */
  function JoinPath(directory: string, name: string): string {
    directory + "/" + name
  }

  /** The file name stem `{input_name}___{timestamp}_{count label}` with every space
      removed. The timestamp and the `humanize.metric` label are inputs. */
  function BaseFilename(inputName: string, timestamp: string, countLabel: string): (r: string)
    ensures ' ' !in r
  {
    RemoveSpaces(inputName + "___" + timestamp + "_" + countLabel)
  }

  /** `if split_size:` -- `None` and zero are falsy, every other integer is truthy. */
  predicate SplitRequested(splitSize: Option<int>) {
    splitSize.Some? && splitSize.value != 0
  }

  /** The name of the file for chunk number `i` (counting from one). */
  function ChunkFileName(base: string, i: nat): string {
    base + "_" + NatToString(i) + ".csv"
  }

  /** One file per chunk, numbered from one. */
  function ChunkFiles(outputDir: string, base: string, chunks: seq<seq<Credential>>): (files: seq<OutputFile>)
    ensures |files| == |chunks|
  {
    if chunks == [] then []
    else ChunkFiles(outputDir, base, chunks[..|chunks| - 1]) +
         [OutputFile(JoinPath(outputDir, ChunkFileName(base, |chunks|)), chunks[|chunks| - 1])]
  }

  /** File `k` of the list is the one for chunk `k`, numbered `k + 1`. */
  lemma {:induction false} ChunkFilesAt(outputDir: string, base: string, chunks: seq<seq<Credential>>, k: nat)
    requires k < |chunks|
    ensures ChunkFiles(outputDir, base, chunks)[k] ==
              OutputFile(JoinPath(outputDir, ChunkFileName(base, k + 1)), chunks[k])
    decreases |chunks|
  {
    var init := chunks[..|chunks| - 1];
    if k < |chunks| - 1 {
      ChunkFilesAt(outputDir, base, init, k);
    } else if init != [] {
      ChunkFilesAt(outputDir, base, init, 0);
    }
  }

  /** The files `write_output` creates, in order: one per chunk when a split is
      requested, otherwise the single file `base.csv` with every record. */
  function OutputFiles(outputDir: string, base: string, credentials: seq<Credential>, splitSize: Option<int>): seq<OutputFile> {
    if SplitRequested(splitSize) then ChunkFiles(outputDir, base, SplitList(credentials, splitSize.value))
    else
      [OutputFile(JoinPath(outputDir, base + ".csv"), credentials)]
  }

  /** The running totals of `credentials_written` after each chunk. */
  function RunningTotals(chunks: seq<seq<Credential>>): (totals: seq<nat>)
    ensures |totals| == |chunks|
  {
    if chunks == [] then [] else RunningTotals(chunks[..|chunks| - 1]) + [|Flatten(chunks)|]
  }

  /** Total `k` is the size of the first `k + 1` chunks. */
  lemma {:induction false} RunningTotalsAt(chunks: seq<seq<Credential>>, k: nat)
    requires k < |chunks|
    ensures RunningTotals(chunks)[k] == |Flatten(chunks[..k + 1])|
    decreases |chunks|
  {
    var init := chunks[..|chunks| - 1];
    if k < |chunks| - 1 {
      RunningTotalsAt(init, k);
      assert init[..k + 1] == chunks[..k + 1];
    } else {
      if init != [] {
        RunningTotalsAt(init, 0);
      }
      assert chunks[..k + 1] == chunks;
    }
  }

  /** The `completed=` values sent to the progress task, in order. `progress and task_id`
      guards every update, so with a task id of 0 none is sent. */
  function ProgressUpdates(credentials: seq<Credential>, splitSize: Option<int>, taskId: nat): seq<nat> {
    if taskId == 0 then []
    else if SplitRequested(splitSize) then RunningTotals(SplitList(credentials, splitSize.value))
    else [|credentials|]
  }

  /** Writing one more chunk appends its file and its running total. */
  lemma ChunkStep(outputDir: string, base: string, chunks: seq<seq<Credential>>, chunk: seq<Credential>)
    ensures ChunkFiles(outputDir, base, chunks + [chunk]) ==
              ChunkFiles(outputDir, base, chunks) + [OutputFile(JoinPath(outputDir, ChunkFileName(base, |chunks| + 1)), chunk)]
    ensures |Flatten(chunks + [chunk])| == |Flatten(chunks)| + |chunk|
    ensures RunningTotals(chunks + [chunk]) == RunningTotals(chunks) + [|Flatten(chunks)| + |chunk|]
  {
    assert (chunks + [chunk])[..|chunks|] == chunks;
  }

  /** `write_output`: writes the chunk files (or the single file) and reports the
      running count of credentials written. */
  method WriteOutput(outputDir: string, inputName: string, credentials: seq<Credential>, splitSize: Option<int>,
                     timestamp: string, countLabel: string, taskId: nat)
    returns (files: seq<OutputFile>, updates: seq<nat>)
    ensures files == OutputFiles(outputDir, BaseFilename(inputName, timestamp, countLabel), credentials, splitSize)
    ensures updates == ProgressUpdates(credentials, splitSize, taskId)
  {
    var baseFilename := BaseFilename(inputName, timestamp, countLabel);
    var totalCredentials := |credentials|;
    var credentialsWritten := 0;
    files := [];
    updates := [];
    if SplitRequested(splitSize) {
      var chunks := SplitList(credentials, splitSize.value);
      ghost var written: seq<seq<Credential>> := [];
      for i := 0 to |chunks|
        invariant written == chunks[..i]
        invariant files == ChunkFiles(outputDir, baseFilename, written)
        invariant credentialsWritten == |Flatten(written)|
        invariant taskId == 0 ==> updates == []
        invariant taskId != 0 ==> updates == RunningTotals(written)
      {
        var chunk := chunks[i];
        var filename := ChunkFileName(baseFilename, i + 1);
        ChunkStep(outputDir, baseFilename, written, chunk);
        files := files + [OutputFile(JoinPath(outputDir, filename), chunk)];
        credentialsWritten := credentialsWritten + |chunk|;
        if taskId != 0 {
          updates := updates + [credentialsWritten];
        }
        written := written + [chunk];
      }
      assert written == chunks;
    } else {
      files := [OutputFile(JoinPath(outputDir, baseFilename + ".csv"), credentials)];
      if taskId != 0 {
        updates := [totalCredentials];
      }
    }
  }

  // ---------------------------------------------------------------- properties

  /** Chunk file `k` is named with the number `k + 1` and receives the slice
      `credentials[k * n:k * n + n]`. */
  lemma ChunkFileContent(outputDir: string, base: string, credentials: seq<Credential>, n: int, k: nat)
    requires n > 0 && k < |SplitList(credentials, n)|
    ensures k * n < |credentials|
    ensures OutputFiles(outputDir, base, credentials, Some(n))[k] ==
              OutputFile(JoinPath(outputDir, ChunkFileName(base, k + 1)), credentials[k * n..Min(k * n + n, |credentials|)])
  {
    SplitListChunk(credentials, n, k);
    ChunkFilesAt(outputDir, base, SplitList(credentials, n), k);
  }

  /** No two chunk files share a name. */
  lemma ChunkFileNamesDistinct(base: string, i: nat, j: nat)
    requires i != j
    ensures ChunkFileName(base, i) != ChunkFileName(base, j)
  {
    var a, b := NatToString(i), NatToString(j);
    if ChunkFileName(base, i) == ChunkFileName(base, j) {
      var p := |base| + 1;
      assert |a| == |b|;
      assert a == ChunkFileName(base, i)[p..p + |a|];
      assert b == ChunkFileName(base, j)[p..p + |b|];
      NatToStringInjective(i, j);
    }
  }

  /** In split mode with no credentials nothing at all is written. */
  lemma NoCredentialsNoSplitFiles(outputDir: string, base: string, n: int)
    requires n != 0
    ensures OutputFiles(outputDir, base, [], Some(n)) == []
  {
  }

  /** A negative split size is truthy yet yields an empty range: no file is written. */
  lemma NegativeSplitWritesNothing(outputDir: string, base: string, credentials: seq<Credential>, n: int)
    requires n < 0
    ensures OutputFiles(outputDir, base, credentials, Some(n)) == []
  {
    SplitListNegative(credentials, n);
  }

  /** Without a (truthy) split size exactly one file, `base.csv`, receives every record. */
  lemma SingleFileFallback(outputDir: string, base: string, credentials: seq<Credential>, splitSize: Option<int>)
    requires !SplitRequested(splitSize)
    ensures OutputFiles(outputDir, base, credentials, splitSize) ==
              [OutputFile(JoinPath(outputDir, base + ".csv"), credentials)]
  {
  }

  /** After chunk `k` the counter holds `(k + 1) * n` for every chunk but the last,
      and after the last chunk it holds the number of credentials. */
  lemma RunningTotalsCount(credentials: seq<Credential>, n: int, k: nat)
    requires n > 0 && k < |SplitList(credentials, n)|
    ensures var chunks := SplitList(credentials, n);
      && (k < |chunks| - 1 ==> RunningTotals(chunks)[k] == (k + 1) * n)
      && (k == |chunks| - 1 ==> RunningTotals(chunks)[k] == |credentials|)
  {
    var chunks := SplitList(credentials, n);
    RunningTotalsAt(chunks, k);
    if k < |chunks| - 1 {
      SplitListSizes(credentials, n);
      PrefixExact(chunks, n, k + 1);
    } else {
      SplitListFlatten(credentials, n);
      assert chunks[..k + 1] == chunks;
    }
  }

  /** Before the last chunk, every prefix of `j` chunks holds exactly `j * n` elements. */
  lemma {:induction false} PrefixExact(chunks: seq<seq<Credential>>, n: int, j: nat)
    requires n > 0 && j < |chunks|
    requires forall k | 0 <= k < |chunks| - 1 :: |chunks[k]| == n
    ensures |Flatten(chunks[..j])| == j * n
  {
    if j > 0 {
      PrefixExact(chunks, n, j - 1);
      assert chunks[..j][..j - 1] == chunks[..j - 1];
      MulStep(j - 1, n);
    }
  }

  /** The written counter finishes equal to the number of credentials whenever a
      positive split writes at least one chunk. */
  lemma FinalCountIsTotal(credentials: seq<Credential>, n: int, taskId: nat)
    requires n > 0 && taskId != 0 && credentials != []
    ensures var updates := ProgressUpdates(credentials, Some(n), taskId);
      updates != [] && updates[|updates| - 1] == |credentials|
  {
    SplitListEmpty(credentials, n);
    var chunks := SplitList(credentials, n);
    RunningTotalsCount(credentials, n, |chunks| - 1);
  }
}
