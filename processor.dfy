/** `dumper/processor.py`: turning each walked path into a skip, a success or a
    failure record, merging the successful credentials, sorting and deduplicating
    them on the lowercased email, and handing the survivors to the writer. */
module Processor {
  import opened Wrappers
  import opened Strings
  import Parser
  import Output
  import Dumper

  type Credential = Parser.Credential

  // ---------------------------------------------------------------- process_file

  /** A path as the walk yields it, with what the file system would report about it:
      its kind, its size (`stat().st_size`), its decoded content, and the text
      `get_file_sample` would read from it. */
  datatype FileEntry = FileEntry(path: string, kind: Parser.EntryKind, size: nat,
                                 content: Parser.FileContent, sample: string)

  datatype Status = Succeeded | Failed(error: string, sample: string)

  /** The result record of one processed file. */
  datatype FileResult = FileResult(path: string, credentials: seq<Credential>, totalLines: nat,
                                   fileSize: nat, status: Status)

  /** What every record `process_file` builds satisfies: a success counts its
      credentials, a failure carries none. */
  predicate Consistent(r: FileResult) {
    match r.status
    case Succeeded => r.totalLines == |r.credentials|
    case Failed(_, _) => r.credentials == [] && r.totalLines == 0
  }

  /** True when `process_file` skips the entry without a record. */
  predicate Skipped(entry: FileEntry, ignored: set<string>) {
    entry.kind == Parser.Directory || BaseName(entry.path) in ignored
  }

  /** `process_file`: nothing for a directory or an ignored name, otherwise a success
      record with the parsed credentials or a failure record with the error message
      and the file's sample. */
  function ProcessFile(entry: FileEntry, ignored: set<string>): (r: Option<FileResult>)
    ensures r.Some? ==> Consistent(r.value) && r.value.path == entry.path && r.value.fileSize == entry.size
  {
    if Skipped(entry, ignored) then None
    else match Parser.FileCredentials(entry.path, entry.kind, entry.content, ignored)
      case Success(credentials) =>
        Some(FileResult(entry.path, credentials, |credentials|, entry.size, Succeeded))
      case Failure(error) =>
        Some(FileResult(entry.path, [], 0, entry.size, Failed(error, entry.sample)))
  }

  /** An entry gives no record exactly when it is a directory or its name is ignored. */
  lemma ProcessFileSkips(entry: FileEntry, ignored: set<string>)
    ensures ProcessFile(entry, ignored).None? <==> entry.kind == Parser.Directory || BaseName(entry.path) in ignored
  {
  }

  /** A record fails exactly when the entry is a regular file that cannot be read or
      has fewer than ten lines; anything else that is not a directory (a special
      file, say) succeeds with no credentials. */
  lemma ProcessFileFails(entry: FileEntry, ignored: set<string>)
    requires !Skipped(entry, ignored)
    ensures var r := ProcessFile(entry, ignored).value;
      && (r.status.Failed? <==>
            entry.kind == Parser.RegularFile &&
            (entry.content.Unreadable? || |entry.content.lines| < Parser.SampleSize))
      && (r.status.Failed? ==> r.status.sample == entry.sample)
      && (entry.kind == Parser.OtherEntry ==> r.status.Succeeded? && r.credentials == [])
  {
    Parser.FileCredentialsOutcome(entry.path, entry.kind, entry.content, ignored);
  }

  /** Every credential of a success record has an email matching the pattern. */
  lemma ProcessFileEmails(entry: FileEntry, ignored: set<string>)
    requires !Skipped(entry, ignored)
    ensures Parser.AllEmailsMatch(ProcessFile(entry, ignored).value.credentials)
  {
    Parser.FileCredentialsEmails(entry.path, entry.kind, entry.content, ignored);
  }

  // ---------------------------------------------------------------- gather and filter

  /** `asyncio.gather` over `process_file`: the outcomes in input order. */
  function Gather(entries: seq<FileEntry>, ignored: set<string>): (rs: seq<Option<FileResult>>)
    ensures |rs| == |entries|
  {
    seq(|entries|, k requires 0 <= k < |entries| => ProcessFile(entries[k], ignored))
  }

  /** `[result for result in results if result is not None]`. */
  function Present(rs: seq<Option<FileResult>>): seq<FileResult> {
    if rs == [] then []
    else Present(rs[..|rs| - 1]) + (if rs[|rs| - 1].Some? then [rs[|rs| - 1].value] else [])
  }

  /** The number of entries `process_file` does not skip. */
  function KeptCount(entries: seq<FileEntry>, ignored: set<string>): nat {
    if entries == [] then 0
    else KeptCount(entries[..|entries| - 1], ignored) + (if Skipped(entries[|entries| - 1], ignored) then 0 else 1)
  }

  /** A record survives the filter exactly when it was gathered. */
  lemma {:induction false} PresentMembers(rs: seq<Option<FileResult>>, r: FileResult)
    ensures r in Present(rs) <==> Some(r) in rs
    decreases |rs|
  {
    if rs != [] {
      var init := rs[..|rs| - 1];
      PresentMembers(init, r);
      assert rs == init + [rs[|rs| - 1]];
    }
  }

  /** One record remains per entry that was not skipped. */
  lemma {:induction false} PresentCount(entries: seq<FileEntry>, ignored: set<string>)
    ensures |Present(Gather(entries, ignored))| == KeptCount(entries, ignored)
    decreases |entries|
  {
    if entries != [] {
      var init := entries[..|entries| - 1];
      var g := Gather(entries, ignored);
      assert g[..|g| - 1] == Gather(init, ignored);
      PresentCount(init, ignored);
    }
  }

  /** Every entry that is not skipped has its record among the remaining ones. */
  lemma PresentComplete(entries: seq<FileEntry>, ignored: set<string>, k: nat)
    requires k < |entries| && !Skipped(entries[k], ignored)
    ensures ProcessFile(entries[k], ignored).value in Present(Gather(entries, ignored))
  {
    var g := Gather(entries, ignored);
    PresentMembers(g, ProcessFile(entries[k], ignored).value);
    assert g[k] == ProcessFile(entries[k], ignored);
  }

  /** Every remaining record is the consistent record of a kept entry, with its path. */
  lemma PresentSound(entries: seq<FileEntry>, ignored: set<string>, r: FileResult)
    requires r in Present(Gather(entries, ignored))
    ensures Consistent(r)
    ensures exists k | 0 <= k < |entries| :: !Skipped(entries[k], ignored) && r.path == entries[k].path
  {
    var g := Gather(entries, ignored);
    PresentMembers(g, r);
    var k :| 0 <= k < |g| && g[k] == Some(r);
    assert ProcessFile(entries[k], ignored) == Some(r);
  }

  /** Every remaining record is consistent. */
  lemma PresentConsistent(entries: seq<FileEntry>, ignored: set<string>)
    ensures forall r | r in Present(Gather(entries, ignored)) :: Consistent(r)
  {
    forall r | r in Present(Gather(entries, ignored)) ensures Consistent(r) {
      PresentSound(entries, ignored, r);
    }
  }

  // ---------------------------------------------------------------- success / failure partition

  /** The credentials of the success records, concatenated in record order. */
  function Merged(results: seq<FileResult>): seq<Credential> {
    if results == [] then []
    else
      var r := results[|results| - 1];
      Merged(results[..|results| - 1]) + (if r.status.Succeeded? then r.credentials else [])
  }

  /** The failure records, in record order. */
  function FailedOf(results: seq<FileResult>): seq<FileResult> {
    if results == [] then []
    else
      var r := results[|results| - 1];
      FailedOf(results[..|results| - 1]) + (if r.status.Succeeded? then [] else [r])
  }

  /** The number of success records. */
  function SucceededCount(results: seq<FileResult>): nat {
    if results == [] then 0
    else SucceededCount(results[..|results| - 1]) + (if results[|results| - 1].status.Succeeded? then 1 else 0)
  }

  /** The sum of the `total_lines` counts. */
  function TotalLines(results: seq<FileResult>): nat {
    if results == [] then 0 else TotalLines(results[..|results| - 1]) + results[|results| - 1].totalLines
  }

  /** Every record lands in exactly one of the two lists: the failures are all failed,
      and together with the successes they account for every record. */
  lemma {:induction false} PartitionExact(results: seq<FileResult>)
    ensures SucceededCount(results) + |FailedOf(results)| == |results|
    ensures forall r | r in FailedOf(results) :: r.status.Failed? && r in results
    decreases |results|
  {
    if results != [] {
      PartitionExact(results[..|results| - 1]);
    }
  }

  /** Over consistent records the merged list is as long as the sum of the
      `total_lines` counts, so `total_credentials` is that sum. */
  lemma {:induction false} MergedLength(results: seq<FileResult>)
    requires forall r | r in results :: Consistent(r)
    ensures |Merged(results)| == TotalLines(results)
    decreases |results|
  {
    if results != [] {
      var init := results[..|results| - 1];
      assert forall r | r in init :: r in results;
      MergedLength(init);
      assert Consistent(results[|results| - 1]);
    }
  }

  /** Merging distributes over concatenation of record lists. */
  lemma {:induction false} MergedAppend(a: seq<FileResult>, b: seq<FileResult>)
    ensures Merged(a + b) == Merged(a) + Merged(b)
    ensures FailedOf(a + b) == FailedOf(a) + FailedOf(b)
    decreases |b|
  {
    if b == [] {
      assert a + b == a;
    } else {
      var init := b[..|b| - 1];
      assert (a + b)[..|a + b| - 1] == a + init;
      assert (a + b)[|a + b| - 1] == b[|b| - 1];
      MergedAppend(a, init);
    }
  }

  /** The loop over `results` that extends `all_credentials` with each success's
      credentials and appends each failure to `failed_files`. */
  method Partition(results: seq<FileResult>) returns (allCredentials: seq<Credential>, failedFiles: seq<FileResult>)
    ensures allCredentials == Merged(results)
    ensures failedFiles == FailedOf(results)
  {
    allCredentials := [];
    failedFiles := [];
    ghost var done: seq<FileResult> := [];
    for i := 0 to |results|
      invariant done == results[..i]
      invariant allCredentials == Merged(done)
      invariant failedFiles == FailedOf(done)
    {
      var result := results[i];
      assert (done + [result])[..|done|] == done;
      if result.status.Succeeded? {
        allCredentials := allCredentials + result.credentials;
      } else {
        failedFiles := failedFiles + [result];
      }
      done := done + [result];
    }
    assert done == results;
  }

  // ---------------------------------------------------------------- ordering on keys

  /** The sort and deduplication key `email.lower()`. */
  function Key(c: Credential): string {
    Lower(c.email)
  }

  /** Python's `<` on strings: lexicographic by code point, a proper prefix first. */
  function LexLess(a: string, b: string): bool {
    if a == [] then b != []
    else if b == [] then false
    else if a[0] != b[0] then a[0] < b[0]
    else LexLess(a[1..], b[1..])
  }

  lemma {:induction false} LexLessIrreflexive(a: string)
    ensures !LexLess(a, a)
  {
    if a != [] {
      LexLessIrreflexive(a[1..]);
    }
  }

  lemma {:induction false} LexLessTransitive(a: string, b: string, c: string)
    requires LexLess(a, b) && LexLess(b, c)
    ensures LexLess(a, c)
  {
    if a != [] && b != [] && c != [] && a[0] == b[0] && b[0] == c[0] {
      LexLessTransitive(a[1..], b[1..], c[1..]);
    }
  }

  /** Distinct strings are always ordered one way or the other, and never both. */
  lemma {:induction false} LexLessTotal(a: string, b: string)
    ensures a == b || LexLess(a, b) || LexLess(b, a)
    ensures !(LexLess(a, b) && LexLess(b, a))
  {
    if a != [] && b != [] && a[0] == b[0] {
      LexLessTotal(a[1..], b[1..]);
      if a[1..] == b[1..] {
        assert a == [a[0]] + a[1..] && b == [b[0]] + b[1..];
      }
    }
  }

  /** `a <= b`, that is `not b < a`. */
  predicate KeyLe(x: Credential, y: Credential) {
    !LexLess(Key(y), Key(x))
  }

  /** `x <= y` and `y < z` give `x < z`. */
  lemma LeLessTransitive(x: Credential, y: Credential, z: Credential)
    requires KeyLe(x, y) && LexLess(Key(y), Key(z))
    ensures LexLess(Key(x), Key(z)) && !LexLess(Key(z), Key(x))
  {
    LexLessTotal(Key(x), Key(y));
    if Key(x) != Key(y) {
      LexLessTransitive(Key(x), Key(y), Key(z));
    }
    LexLessTotal(Key(x), Key(z));
  }

  /** Non-decreasing in `email.lower()`. */
  predicate Sorted(s: seq<Credential>) {
    forall i, j | 0 <= i < j < |s| :: KeyLe(s[i], s[j])
  }

  /** Strictly increasing in `email.lower()`. */
  predicate StrictlySorted(s: seq<Credential>) {
    forall i, j | 0 <= i < j < |s| :: LexLess(Key(s[i]), Key(s[j]))
  }

  // ---------------------------------------------------------------- sorted(..., key=...)

  /** Inserts `x` after every element whose key is not greater than its own. */
  function Insert(t: seq<Credential>, x: Credential): (r: seq<Credential>)
    ensures |r| == |t| + 1
  {
    if t == [] then [x]
    else if LexLess(Key(x), Key(t[0])) then [x] + t
    else [t[0]] + Insert(t[1..], x)
  }

  /** `sorted(credentials, key=lambda x: x[0].lower())`, as a stable insertion sort. */
  function SortByKey(s: seq<Credential>): (r: seq<Credential>)
    ensures |r| == |s|
  {
    if s == [] then [] else Insert(SortByKey(s[..|s| - 1]), s[|s| - 1])
  }

  lemma {:induction false} InsertPermutation(t: seq<Credential>, x: Credential)
    ensures multiset(Insert(t, x)) == multiset(t) + multiset{x}
    decreases |t|
  {
    if t != [] && !LexLess(Key(x), Key(t[0])) {
      InsertPermutation(t[1..], x);
      assert t == [t[0]] + t[1..];
    }
  }

  /** `x < y` and `y <= z` give `x < z`. */
  lemma LessLeTransitive(x: Credential, y: Credential, z: Credential)
    requires LexLess(Key(x), Key(y)) && KeyLe(y, z)
    ensures LexLess(Key(x), Key(z)) && KeyLe(x, z)
  {
    LexLessTotal(Key(y), Key(z));
    if Key(y) != Key(z) {
      LexLessTransitive(Key(x), Key(y), Key(z));
    }
    LexLessTotal(Key(x), Key(z));
  }

  lemma SortedCons(y: Credential, rest: seq<Credential>)
    requires Sorted(rest)
    requires forall j | 0 <= j < |rest| :: KeyLe(y, rest[j])
    ensures Sorted([y] + rest)
  {
    var r := [y] + rest;
    forall i, j | 0 <= i < j < |r| ensures KeyLe(r[i], r[j]) {
      if i > 0 {
        assert r[i] == rest[i - 1] && r[j] == rest[j - 1];
      } else {
        assert r[j] == rest[j - 1];
      }
    }
  }

  lemma {:induction false} InsertSorted(t: seq<Credential>, x: Credential)
    requires Sorted(t)
    ensures Sorted(Insert(t, x))
    decreases |t|
  {
    if t == [] {
      LexLessIrreflexive(Key(x));
    } else if LexLess(Key(x), Key(t[0])) {
      LexLessIrreflexive(Key(t[0]));
      forall j | 0 <= j < |t| ensures KeyLe(x, t[j]) {
        LessLeTransitive(x, t[0], t[j]);
      }
      SortedCons(x, t);
    } else {
      var rest := Insert(t[1..], x);
      assert Sorted(t[1..]);
      InsertSorted(t[1..], x);
      InsertPermutation(t[1..], x);
      forall j | 0 <= j < |rest| ensures KeyLe(t[0], rest[j]) {
        assert rest[j] in multiset(rest);
        if rest[j] != x {
          assert rest[j] in multiset(t[1..]);
          var m :| 0 <= m < |t[1..]| && t[1..][m] == rest[j];
          assert t[m + 1] == rest[j];
        } else {
          LexLessTotal(Key(t[0]), Key(x));
          LexLessIrreflexive(Key(x));
        }
      }
      SortedCons(t[0], rest);
    }
  }

  /** The sort yields a non-decreasing list. */
  lemma {:induction false} SortByKeySorted(s: seq<Credential>)
    ensures Sorted(SortByKey(s))
    decreases |s|
  {
    if s != [] {
      var init := s[..|s| - 1];
      SortByKeySorted(init);
      InsertSorted(SortByKey(init), s[|s| - 1]);
    }
  }

  /** The sort yields a permutation of its input. */
  lemma {:induction false} SortByKeyPermutation(s: seq<Credential>)
    ensures multiset(SortByKey(s)) == multiset(s)
    decreases |s|
  {
    if s != [] {
      var init := s[..|s| - 1];
      SortByKeyPermutation(init);
      InsertPermutation(SortByKey(init), s[|s| - 1]);
      assert s == init + [s[|s| - 1]];
    }
  }

  /** The elements of `s` whose key is `k`, in order. */
  function FilterKey(s: seq<Credential>, k: string): seq<Credential> {
    if s == [] then []
    else FilterKey(s[..|s| - 1], k) + (if Key(s[|s| - 1]) == k then [s[|s| - 1]] else [])
  }

  lemma {:induction false} FilterKeyAppend(a: seq<Credential>, b: seq<Credential>, k: string)
    ensures FilterKey(a + b, k) == FilterKey(a, k) + FilterKey(b, k)
    decreases |b|
  {
    if b == [] {
      assert a + b == a;
    } else {
      var init := b[..|b| - 1];
      assert (a + b)[..|a + b| - 1] == a + init;
      assert (a + b)[|a + b| - 1] == b[|b| - 1];
      FilterKeyAppend(a, init, k);
    }
  }

  lemma {:induction false} FilterKeyNone(s: seq<Credential>, k: string)
    requires forall i | 0 <= i < |s| :: Key(s[i]) != k
    ensures FilterKey(s, k) == []
    decreases |s|
  {
    if s != [] {
      FilterKeyNone(s[..|s| - 1], k);
    }
  }

  lemma FilterKeySingle(x: Credential, k: string)
    ensures FilterKey([x], k) == if Key(x) == k then [x] else []
  {
    assert [x][..0] == [];
  }

  /** When `x` goes in front of a sorted list, its key is below every key there, so
      no element of the list shares it. */
  lemma InsertFrontStable(t: seq<Credential>, x: Credential, k: string)
    requires t != [] && Sorted(t) && LexLess(Key(x), Key(t[0]))
    ensures FilterKey([x] + t, k) == FilterKey(t, k) + FilterKey([x], k)
  {
    FilterKeySingle(x, k);
    FilterKeyAppend([x], t, k);
    if Key(x) == k {
      LexLessIrreflexive(Key(t[0]));
      forall i | 0 <= i < |t| ensures Key(t[i]) != k {
        LessLeTransitive(x, t[0], t[i]);
        LexLessIrreflexive(k);
      }
      FilterKeyNone(t, k);
    }
  }

  /** Passing over the head of the list keeps the head's filtered element in front. */
  lemma InsertPastStable(y: Credential, tail: seq<Credential>, rest: seq<Credential>, fx: seq<Credential>, k: string)
    requires FilterKey(rest, k) == FilterKey(tail, k) + fx
    ensures FilterKey([y] + rest, k) == FilterKey([y] + tail, k) + fx
  {
    FilterKeyAppend([y], rest, k);
    FilterKeyAppend([y], tail, k);
  }

  /** Inserting `x` into a sorted list places it after every element of equal key. */
  lemma {:induction false} InsertStable(t: seq<Credential>, x: Credential, k: string)
    requires Sorted(t)
    ensures FilterKey(Insert(t, x), k) == FilterKey(t, k) + FilterKey([x], k)
    decreases |t|
  {
    if t == [] {
      assert Insert(t, x) == [x];
      assert t + [x] == [x];
      FilterKeyAppend(t, [x], k);
    } else if LexLess(Key(x), Key(t[0])) {
      assert Insert(t, x) == [x] + t;
      InsertFrontStable(t, x, k);
    } else {
      assert Sorted(t[1..]);
      InsertStable(t[1..], x, k);
      assert Insert(t, x) == [t[0]] + Insert(t[1..], x);
      InsertPastStable(t[0], t[1..], Insert(t[1..], x), FilterKey([x], k), k);
      assert [t[0]] + t[1..] == t;
    }
  }

  /** Stability: for every key, the elements carrying it keep their input order. */
  lemma {:induction false} SortByKeyStable(s: seq<Credential>, k: string)
    ensures FilterKey(SortByKey(s), k) == FilterKey(s, k)
    decreases |s|
  {
    if s != [] {
      var init := s[..|s| - 1];
      var x := s[|s| - 1];
      SortByKeyStable(init, k);
      SortByKeySorted(init);
      InsertStable(SortByKey(init), x, k);
      FilterKeySingle(x, k);
      assert SortByKey(s) == Insert(SortByKey(init), x);
      assert FilterKey(s, k) == FilterKey(init, k) + FilterKey([x], k);
    }
  }

  // ---------------------------------------------------------------- deduplication

  /** The lowercased emails of `s`. */
  function KeySet(s: seq<Credential>): set<string> {
    if s == [] then {} else KeySet(s[..|s| - 1]) + {Key(s[|s| - 1])}
  }

  /** The first-occurrence scan: an element survives when no earlier element has its key. */
  function UniqueByKey(s: seq<Credential>): seq<Credential> {
    if s == [] then []
    else
      var init := s[..|s| - 1];
      UniqueByKey(init) + (if Key(s[|s| - 1]) in KeySet(init) then [] else [s[|s| - 1]])
  }

  lemma {:induction false} KeySetMembers(s: seq<Credential>, k: string)
    ensures k in KeySet(s) <==> exists i | 0 <= i < |s| :: Key(s[i]) == k
    ensures k in KeySet(s) <==> FilterKey(s, k) != []
    decreases |s|
  {
    if s != [] {
      var init := s[..|s| - 1];
      KeySetMembers(init, k);
      if exists i | 0 <= i < |init| :: Key(init[i]) == k {
        var i :| 0 <= i < |init| && Key(init[i]) == k;
        assert s[i] == init[i];
      }
      if exists i | 0 <= i < |s| :: Key(s[i]) == k {
        var i :| 0 <= i < |s| && Key(s[i]) == k;
        if i < |init| {
          assert init[i] == s[i];
        }
      }
    }
  }

  /** The scan keeps every key and nothing but the input's elements, and grows by at
      most one per input element. */
  lemma {:induction false} UniqueByKeyKeys(s: seq<Credential>)
    ensures KeySet(UniqueByKey(s)) == KeySet(s)
    ensures |UniqueByKey(s)| <= |s|
    ensures forall c | c in UniqueByKey(s) :: c in s
    decreases |s|
  {
    if s != [] {
      var init := s[..|s| - 1];
      var x := s[|s| - 1];
      UniqueByKeyKeys(init);
      var u := UniqueByKey(init);
      assert KeySet(s) == KeySet(init) + {Key(x)};
      if Key(x) !in KeySet(init) {
        assert UniqueByKey(s) == u + [x];
        assert (u + [x])[..|u|] == u;
        assert KeySet(u + [x]) == KeySet(u) + {Key(x)};
      } else {
        assert UniqueByKey(s) == u;
      }
      forall c | c in UniqueByKey(s) ensures c in s {
        if c in u {
          assert c in init;
        }
      }
    }
  }

  /** Every key of a list is in its key set. */
  lemma {:induction false} KeySetHas(s: seq<Credential>, i: nat)
    requires i < |s|
    ensures Key(s[i]) in KeySet(s)
    decreases |s|
  {
    if i < |s| - 1 {
      KeySetHas(s[..|s| - 1], i);
    }
  }

  /** No two elements share a lowercased email. */
  predicate DistinctKeys(u: seq<Credential>) {
    forall i, j | 0 <= i < j < |u| :: Key(u[i]) != Key(u[j])
  }

  lemma DistinctSnoc(u: seq<Credential>, x: Credential)
    requires DistinctKeys(u) && Key(x) !in KeySet(u)
    ensures DistinctKeys(u + [x])
  {
    var r := u + [x];
    forall i, j | 0 <= i < j < |r| ensures Key(r[i]) != Key(r[j]) {
      assert r[i] == u[i];
      if j < |u| {
        assert r[j] == u[j];
      } else {
        KeySetHas(u, i);
      }
    }
  }

  /** No two survivors share a lowercased email. */
  lemma {:induction false} UniqueByKeyDistinct(s: seq<Credential>)
    ensures DistinctKeys(UniqueByKey(s))
    decreases |s|
  {
    if s != [] {
      var init := s[..|s| - 1];
      var x := s[|s| - 1];
      UniqueByKeyDistinct(init);
      var u := UniqueByKey(init);
      if Key(x) !in KeySet(init) {
        UniqueByKeyKeys(init);
        assert UniqueByKey(s) == u + [x];
        DistinctSnoc(u, x);
      } else {
        assert UniqueByKey(s) == u;
      }
    }
  }

  /** For each key, the survivor is the first element of the input with that key. */
  lemma {:induction false} UniqueByKeyFirst(s: seq<Credential>, k: string)
    ensures k in KeySet(s) ==> FilterKey(s, k) != [] && FilterKey(UniqueByKey(s), k) == [FilterKey(s, k)[0]]
    ensures k !in KeySet(s) ==> FilterKey(UniqueByKey(s), k) == []
    decreases |s|
  {
    KeySetMembers(s, k);
    if s != [] {
      var init := s[..|s| - 1];
      var x := s[|s| - 1];
      UniqueByKeyFirst(init, k);
      KeySetMembers(init, k);
      var u := UniqueByKey(init);
      assert KeySet(s) == KeySet(init) + {Key(x)};
      var tail := if Key(x) == k then [x] else [];
      assert FilterKey(s, k) == FilterKey(init, k) + tail;
      if Key(x) !in KeySet(init) {
        assert UniqueByKey(s) == u + [x];
        FilterKeyAppend(u, [x], k);
        FilterKeySingle(x, k);
        if Key(x) == k {
          assert FilterKey(init, k) == [];
        }
      } else {
        assert UniqueByKey(s) == u;
        if k in KeySet(init) {
          assert FilterKey(s, k)[0] == FilterKey(init, k)[0];
        }
      }
    }
  }

  lemma StrictlySortedSnoc(u: seq<Credential>, x: Credential)
    requires StrictlySorted(u)
    requires forall i | 0 <= i < |u| :: LexLess(Key(u[i]), Key(x))
    ensures StrictlySorted(u + [x])
  {
    var r := u + [x];
    forall i, j | 0 <= i < j < |r| ensures LexLess(Key(r[i]), Key(r[j])) {
      assert r[i] == u[i];
      if j < |u| {
        assert r[j] == u[j];
      }
    }
  }

  /** When the last element of a sorted list brings a new key, that key is above
      every key the scan kept before it. */
  lemma NewKeyIsGreatest(init: seq<Credential>, x: Credential)
    requires Sorted(init + [x])
    requires Key(x) !in KeySet(init)
    ensures forall i | 0 <= i < |UniqueByKey(init)| :: LexLess(Key(UniqueByKey(init)[i]), Key(x))
  {
    var u := UniqueByKey(init);
    UniqueByKeyKeys(init);
    forall i | 0 <= i < |u| ensures LexLess(Key(u[i]), Key(x)) {
      KeySetMembers(u, Key(u[i]));
      KeySetMembers(init, Key(u[i]));
      var m :| 0 <= m < |init| && Key(init[m]) == Key(u[i]);
      assert KeyLe((init + [x])[m], (init + [x])[|init|]);
      LexLessTotal(Key(u[i]), Key(x));
    }
  }

  /** A sorted input leaves survivors in strictly increasing key order. */
  lemma {:induction false} UniqueByKeyStrictlySorted(s: seq<Credential>)
    requires Sorted(s)
    ensures StrictlySorted(UniqueByKey(s))
    decreases |s|
  {
    if s != [] {
      var init := s[..|s| - 1];
      var x := s[|s| - 1];
      assert Sorted(init);
      UniqueByKeyStrictlySorted(init);
      if Key(x) !in KeySet(init) {
        assert s == init + [x];
        NewKeyIsGreatest(init, x);
        var u := UniqueByKey(init);
        assert forall i | 0 <= i < |u| :: LexLess(Key(u[i]), Key(x));
        assert UniqueByKey(s) == u + [x];
        StrictlySortedSnoc(u, x);
      }
    }
  }

  /** The dedup loop: a `seen` set of lowercased emails, and the pairs whose key was
      not seen before, in order. */
  method Deduplicate(sorted: seq<Credential>) returns (unique: seq<Credential>)
    ensures unique == UniqueByKey(sorted)
  {
    unique := [];
    var seen: set<string> := {};
    ghost var done: seq<Credential> := [];
    for i := 0 to |sorted|
      invariant done == sorted[..i]
      invariant seen == KeySet(done)
      invariant unique == UniqueByKey(done)
    {
      var cred := sorted[i];
      assert (done + [cred])[..|done|] == done;
      var key := Lower(cred.email);
      if key !in seen {
        seen := seen + {key};
        unique := unique + [cred];
      }
      done := done + [cred];
    }
    assert done == sorted;
  }

  // ---------------------------------------------------------------- process_files

  /** The single input file, or every path the walk found under the input directory. */
  function FilesToProcess(inputIsFile: bool, input: FileEntry, walked: seq<FileEntry>): (r: seq<FileEntry>)
    ensures inputIsFile ==> r == [input]
  {
    if inputIsFile then [input] else walked
  }

  /** The dictionary `process_files` returns. */
  datatype Summary = Summary(totalFiles: nat, totalCredentials: nat, uniqueCredentials: nat,
                             failedFiles: seq<FileResult>, results: seq<FileResult>)

  /** The deduplicated credentials of a list of records. */
  function Unique(results: seq<FileResult>): seq<Credential> {
    UniqueByKey(SortByKey(Merged(results)))
  }

  function Summarize(entries: seq<FileEntry>, ignored: set<string>): Summary {
    var results := Present(Gather(entries, ignored));
    Summary(|results|, |Merged(results)|, |Unique(results)|, FailedOf(results), results)
  }

  /** The summary counts: only the records that were not skipped are counted, the
      credential total is the sum of every record's `total_lines`, and at most that
      many survive deduplication. */
  lemma SummaryCounts(entries: seq<FileEntry>, ignored: set<string>)
    ensures var s := Summarize(entries, ignored);
      && s.totalFiles == KeptCount(entries, ignored)
      && s.totalCredentials == TotalLines(s.results)
      && s.uniqueCredentials <= s.totalCredentials
      && SucceededCount(s.results) + |s.failedFiles| == s.totalFiles
  {
    var results := Present(Gather(entries, ignored));
    PresentCount(entries, ignored);
    PresentConsistent(entries, ignored);
    MergedLength(results);
    PartitionExact(results);
    UniqueByKeyKeys(SortByKey(Merged(results)));
  }

  /** The written credentials: strictly increasing and so distinct in lowercased email,
      every lowercased email of the merged input present, each survivor the first pair
      with its key in merged order, and nothing that was not in the input. */
  lemma UniqueProperties(results: seq<FileResult>)
    ensures var u := Unique(results);
      var merged := Merged(results);
      && StrictlySorted(u)
      && KeySet(u) == KeySet(merged)
      && (forall c | c in u :: c in merged)
      && (forall k | k in KeySet(merged) :: FilterKey(merged, k) != [] && FilterKey(u, k) == [FilterKey(merged, k)[0]])
  {
    var merged := Merged(results);
    var sorted := SortByKey(merged);
    SortByKeySorted(merged);
    SortByKeyPermutation(merged);
    UniqueByKeyStrictlySorted(sorted);
    UniqueByKeyKeys(sorted);
    KeySetSame(merged, sorted);
    forall c | c in UniqueByKey(sorted) ensures c in merged {
      assert c in multiset(sorted);
    }
    forall k | k in KeySet(merged)
      ensures FilterKey(merged, k) != [] && FilterKey(UniqueByKey(sorted), k) == [FilterKey(merged, k)[0]]
    {
      UniqueByKeyFirst(sorted, k);
      SortByKeyStable(merged, k);
    }
  }

  /** Permuted lists have the same keys. */
  lemma KeySetSame(a: seq<Credential>, b: seq<Credential>)
    requires multiset(a) == multiset(b)
    ensures KeySet(a) == KeySet(b)
  {
    forall k ensures k in KeySet(a) <==> k in KeySet(b) {
      KeySetMembers(a, k);
      KeySetMembers(b, k);
      if k in KeySet(a) {
        var i :| 0 <= i < |a| && Key(a[i]) == k;
        assert a[i] in multiset(b);
        var j :| 0 <= j < |b| && b[j] == a[i];
      }
      if k in KeySet(b) {
        var i :| 0 <= i < |b| && Key(b[i]) == k;
        assert b[i] in multiset(a);
        var j :| 0 <= j < |a| && a[j] == b[i];
      }
    }
  }

  /** Every credential in a success record of the gathered entries has a matching email. */
  lemma PresentEmails(entries: seq<FileEntry>, ignored: set<string>, r: FileResult)
    requires r in Present(Gather(entries, ignored))
    ensures Parser.AllEmailsMatch(r.credentials)
  {
    var g := Gather(entries, ignored);
    PresentMembers(g, r);
    var k :| 0 <= k < |g| && g[k] == Some(r);
    assert ProcessFile(entries[k], ignored) == Some(r);
    ProcessFileEmails(entries[k], ignored);
  }

  lemma {:induction false} MergedEmailsMatch(results: seq<FileResult>)
    requires forall r | r in results :: Parser.AllEmailsMatch(r.credentials)
    ensures Parser.AllEmailsMatch(Merged(results))
    decreases |results|
  {
    if results != [] {
      var init := results[..|results| - 1];
      var r := results[|results| - 1];
      assert forall q | q in init :: q in results;
      MergedEmailsMatch(init);
      var tail := if r.status.Succeeded? then r.credentials else [];
      var m := Merged(init) + tail;
      forall i | 0 <= i < |m| ensures Parser.MatchesEmailPattern(m[i].email) {
        if i >= |Merged(init)| {
          assert m[i] == tail[i - |Merged(init)|];
        }
      }
    }
  }

  /** Every written credential carries an email that passed the pattern check. */
  lemma WrittenEmailsMatch(entries: seq<FileEntry>, ignored: set<string>)
    ensures Parser.AllEmailsMatch(Unique(Present(Gather(entries, ignored))))
  {
    var results := Present(Gather(entries, ignored));
    forall r | r in results ensures Parser.AllEmailsMatch(r.credentials) {
      PresentEmails(entries, ignored, r);
    }
    MergedEmailsMatch(results);
    UniqueProperties(results);
    var u := Unique(results);
    var merged := Merged(results);
    forall i | 0 <= i < |u| ensures Parser.MatchesEmailPattern(u[i].email) {
      assert u[i] in merged;
      var j :| 0 <= j < |merged| && merged[j] == u[i];
    }
  }

  /** The `rich` task id of the write task: the third task added to a fresh
      `Progress`, whose ids count from zero. */
  const WriteTaskId: nat := 2

  /** `process_files`: process every path, keep the records, merge and deduplicate the
      credentials, write them, and return the summary. `inputIsFile` and `walked` stand
      for `is_file()` and the recursive glob; `timestamp` and `countLabel` for the clock
      and `humanize.metric` of the writer. */
  method ProcessFiles(inputPath: string, inputIsFile: bool, input: FileEntry, walked: seq<FileEntry>,
                      outputPath: string, splitSize: Option<int>, timestamp: string, countLabel: string)
    returns (summary: Summary, files: seq<Output.OutputFile>, updates: seq<nat>)
    ensures summary == Summarize(FilesToProcess(inputIsFile, input, walked), Dumper.IgnoredFiles)
    ensures files == Output.OutputFiles(Output.JoinPath(outputPath, PathName(inputPath) + "___output"),
                                        Output.BaseFilename(PathName(inputPath), timestamp, countLabel),
                                        Unique(summary.results), splitSize)
    ensures updates == Output.ProgressUpdates(Unique(summary.results), splitSize, WriteTaskId)
  {
    var filesToProcess := FilesToProcess(inputIsFile, input, walked);
    var results := Present(Gather(filesToProcess, Dumper.IgnoredFiles));
    var allCredentials, failedFiles := Partition(results);
    var sorted := SortByKey(allCredentials);
    var uniqueCredentials := Deduplicate(sorted);
    var outputDir := Output.JoinPath(outputPath, PathName(inputPath) + "___output");
    var inputName := PathName(inputPath);
    files, updates := Output.WriteOutput(outputDir, inputName, uniqueCredentials, splitSize, timestamp, countLabel, WriteTaskId);
    summary := Summary(|results|, |allCredentials|, |uniqueCredentials|, failedFiles, results);
  }
}
