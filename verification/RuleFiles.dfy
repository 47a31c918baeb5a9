/** Names for rule files, none of which is given out twice in one run. */
module RuleFiles {
  import opened Counting

  // ---- Candidate names ----

  function Digit(d: nat): char
    requires d < 10
  {
    ('0' as int + d) as char
  }

  function Decimal(n: nat): (s: string)
    ensures s != []
  {
    if n < 10 then [Digit(n)] else Decimal(n / 10) + [Digit(n % 10)]
  }

  lemma {:induction false} DecimalDistinct(a: nat, b: nat)
    requires Decimal(a) == Decimal(b)
    ensures a == b
  {
    var s, t := Decimal(a), Decimal(b);
    assert s[|s| - 1] == t[|t| - 1];
    if a >= 10 && b >= 10 {
      assert s[..|s| - 1] == Decimal(a / 10) && t[..|t| - 1] == Decimal(b / 10);
      DecimalDistinct(a / 10, b / 10);
    }
  }

  /** The value of a decimal number. */
  function FromDecimal(s: string): int {
    if s == [] then 0 else 10 * FromDecimal(s[..|s| - 1]) + (s[|s| - 1] as int - '0' as int)
  }

  lemma {:induction false} DecimalReads(n: nat)
    ensures FromDecimal(Decimal(n)) == n
    ensures forall i :: 0 <= i < |Decimal(n)| ==> '0' <= Decimal(n)[i] <= '9'
    ensures n > 0 ==> Decimal(n)[0] != '0'
  {
    if n < 10 {
      assert Decimal(n)[..0] == [];
    } else {
      DecimalReads(n / 10);
      assert Decimal(n)[..|Decimal(n)| - 1] == Decimal(n / 10);
    }
  }

  /** A file name in its parts: directory, name up to the first dot, and what follows the dot. */
  datatype FileInfo = FileInfo(path: string, baseName: string, completeSuffix: string)

  /** The name made by appending a number to the base name. */
  function Numbered(info: FileInfo, k: nat): string {
    var name := info.baseName + Decimal(k) + "." + info.completeSuffix;
    if info.path == "." then name else info.path + "/" + name
  }

  /** The number goes between the base name and the dot of the suffix, the path stays. */
  lemma NumberedIs(info: FileInfo, k: nat)
    ensures info.path == "." ==> Numbered(info, k) == info.baseName + Decimal(k) + "." + info.completeSuffix
    ensures info.path != "." ==>
              Numbered(info, k) == info.path + "/" + (info.baseName + Decimal(k) + "." + info.completeSuffix)
  {
  }

  function Absolute(dir: string, file: string): string { dir + "/" + file }

  lemma SameParts(a: string, x: string, y: string, b: string)
    requires a + x + b == a + y + b
    ensures x == y
  {
    assert |x| == |y|;
    forall i | 0 <= i < |x| ensures x[i] == y[i] {
      assert (a + x + b)[|a| + i] == (a + y + b)[|a| + i];
    }
  }

  lemma NumberedDistinct(dir: string, info: FileInfo, j: nat, k: nat)
    requires Absolute(dir, Numbered(info, j)) == Absolute(dir, Numbered(info, k))
    ensures j == k
  {
    hide Decimal;
    var front := dir + "/" + (if info.path == "." then "" else info.path + "/") + info.baseName;
    var back := "." + info.completeSuffix;
    assert Absolute(dir, Numbered(info, j)) == front + Decimal(j) + back;
    assert Absolute(dir, Numbered(info, k)) == front + Decimal(k) + back;
    SameParts(front, Decimal(j), Decimal(k), back);
    DecimalDistinct(j, k);
  }

  // ---- The search ends ----

  predicate Taken(written: seq<string>, dir: string, file: string) { Absolute(dir, file) in written }

  predicate TakenFrom(written: seq<string>, dir: string, info: FileInfo, n: int) {
    forall k :: 1 <= k <= n ==> Taken(written, dir, Numbered(info, k))
  }

  function FirstNumbers(dir: string, info: FileInfo, n: nat): (s: seq<string>)
    ensures |s| == n && forall k :: 0 <= k < n ==> s[k] == Absolute(dir, Numbered(info, k + 1))
  {
    seq(n, k requires 0 <= k < n => Absolute(dir, Numbered(info, k + 1)))
  }

  /** There are more numbers than files written. */
  lemma NotAllTaken(written: seq<string>, dir: string, info: FileInfo, n: nat)
    requires TakenFrom(written, dir, info, n)
    ensures n <= |written|
  {
    var names := FirstNumbers(dir, info, n);
    forall i, j | 0 <= i < j < n ensures names[i] != names[j] {
      if names[i] == names[j] { NumberedDistinct(dir, info, i + 1, j + 1); }
    }
    forall x | x in names ensures x in written {
      var k :| 0 <= k < |names| && names[k] == x;
      assert Taken(written, dir, Numbered(info, k + 1));
    }
    DistinctWithin(names, written);
  }

  datatype Request = Request(file: string, info: FileInfo, hasRules: bool)

  /** The name that a request gets: its own or the first numbered one that was not written yet. */
  ghost predicate Chosen(written: seq<string>, dir: string, r: Request, f: string) {
    if !Taken(written, dir, r.file) then f == r.file
    else
      exists k: nat ::
        k >= 1 && f == Numbered(r.info, k) && !Taken(written, dir, f) && TakenFrom(written, dir, r.info, k - 1)
  }

  /** The files written for these requests, one after another. */
  ghost predicate Followed(dir: string, includeFile: string, requests: seq<Request>, written: seq<string>) {
    if requests == [] then written == [includeFile]
    else
      var front, last := requests[..|requests| - 1], requests[|requests| - 1];
      if !last.hasRules then Followed(dir, includeFile, front, written)
      else
        && written != [] && Followed(dir, includeFile, front, written[..|written| - 1])
        && exists f :: Chosen(written[..|written| - 1], dir, last, f) && written[|written| - 1] == Absolute(dir, f)
  }

  class RuleWriter {
    var filesWritten: seq<string>

    /** The name itself or the first numbered one that was not written yet. */
    method UniqueFileName(dir: string, fileName: string, info: FileInfo) returns (f: string)
      ensures !Taken(filesWritten, dir, fileName) ==> f == fileName
      ensures Taken(filesWritten, dir, fileName) ==>
                exists k: nat :: k >= 1 && f == Numbered(info, k) && TakenFrom(filesWritten, dir, info, k - 1)
      ensures !Taken(filesWritten, dir, f)
    {
      hide Numbered, Absolute;
      f := fileName;
      var i := 1;
      while Absolute(dir, f) in filesWritten
        invariant i >= 1 && TakenFrom(filesWritten, dir, info, i - 2)
        invariant if i == 1 then f == fileName else f == Numbered(info, i - 1)
        invariant i > 1 ==> Taken(filesWritten, dir, fileName)
        decreases |filesWritten| + 2 - i
      {
        NotAllTaken(filesWritten, dir, info, if i == 1 then 0 else i - 1);
        f := Numbered(info, i);
        i := i + 1;
      }
      assert i > 1 ==> f == Numbered(info, i - 1) && TakenFrom(filesWritten, dir, info, i - 1 - 1);
    }

    /**
     * One run: a rule file for each variable or type that has rules, after the file including them.
     * A file without rules is removed again, and its name may be used by a later one.
     */
    method Write(dir: string, includeFile: string, requests: seq<Request>) returns (count: nat)
      modifies this
      ensures Distinct(filesWritten) && count == |filesWritten|
      ensures filesWritten != [] && filesWritten[0] == includeFile
      ensures count == 1 + |RuleIndices(requests)|
      ensures Followed(dir, includeFile, requests, filesWritten)
    {
      filesWritten := [includeFile];
      var i := 0;
      while i < |requests|
        invariant 0 <= i <= |requests|
        invariant Distinct(filesWritten) && filesWritten != [] && filesWritten[0] == includeFile
        invariant |filesWritten| == 1 + WithRules(requests[..i])
        invariant Followed(dir, includeFile, requests[..i], filesWritten)
      {
        var r := requests[i];
        var f := UniqueFileName(dir, r.file, r.info);
        assert requests[..i + 1][..i] == requests[..i];
        ghost var before := filesWritten;
        if r.hasRules {
          assert (before + [Absolute(dir, f)])[..|before|] == before;
          filesWritten := filesWritten + [Absolute(dir, f)];
        }
        i := i + 1;
      }
      assert requests[..|requests|] == requests;
      WithRulesCounts(requests);
      count := |filesWritten|;
    }
  }

  function WithRules(requests: seq<Request>): nat {
    if requests == [] then 0
    else WithRules(requests[..|requests| - 1]) + (if requests[|requests| - 1].hasRules then 1 else 0)
  }

  /** Which requests have rules. */
  function RuleIndices(requests: seq<Request>): set<int> {
    set i | 0 <= i < |requests| && requests[i].hasRules
  }

  lemma {:induction false} WithRulesCounts(requests: seq<Request>)
    ensures WithRules(requests) == |RuleIndices(requests)|
  {
    if requests == [] {
      assert RuleIndices(requests) == {};
    } else {
      var n := |requests| - 1;
      WithRulesCounts(requests[..n]);
      assert RuleIndices(requests) == RuleIndices(requests[..n]) + if requests[n].hasRules then {n} else {};
    }
  }
}
