/**
 * Naming rules for uploaded question papers (pdfstorage/main.py): which
 * client file names are accepted, how os.path.splitext divides a name, and
 * how an upload that would clash with a stored file is renamed to
 * base_1.ext, base_2.ext, ... The upload folder is a finite set of names.
 */
module FileNames {
  import opened Wrappers
  import opened Strings

  /** The extensions the service accepts, compared in lower case. */
  const AllowedExtensions: set<string> := {"pdf"}

  /**
   * allowed_file: the name holds a dot and the text after its LAST dot,
   * lower-cased, is an allowed extension.
   */
  predicate AllowedFile(filename: string) {
    match LastIndexOf(filename, '.')
    case None => false
    case Some(d) => Lower(filename[d + 1..]) in AllowedExtensions
  }

  /** Accepted names are exactly those ending in a dot and "pdf" in any mix of cases. */
  lemma AllowedFileIff(filename: string)
    ensures AllowedFile(filename) <==>
      |filename| >= 4 && filename[|filename| - 4] == '.' && Lower(filename[|filename| - 3..]) == "pdf"
  {
    var n := |filename|;
    if AllowedFile(filename) {
      var d := LastIndexOf(filename, '.').value;
      assert |Lower(filename[d + 1..])| == 3;
    }
    if n >= 4 && filename[n - 4] == '.' && Lower(filename[n - 3..]) == "pdf" {
      var tail := filename[n - 3..];
      forall k | 0 <= k < 3 ensures tail[k] != '.' {
        assert LowerChar(tail[k]) == "pdf"[k];
      }
      assert '.' !in tail;
      var r := LastIndexOf(filename, '.');
      var d := r.value;
      assert forall k :: d < k < n ==> filename[k] != '.' by {
        forall k | d < k < n ensures filename[k] != '.' {
          assert filename[d + 1..][k - d - 1] == filename[k];
        }
      }
      assert forall k :: n - 3 <= k < n ==> filename[k] != '.' by {
        forall k | n - 3 <= k < n ensures filename[k] != '.' {
          assert tail[k - (n - 3)] == filename[k];
        }
      }
      assert d == n - 4;
    }
  }

  lemma AcceptedExamples()
    ensures AllowedFile("a.PDF") && AllowedFile("x.exe.pdf")
  {
    var upper, lower := "a.PDF", "x.exe.pdf";
    assert upper[2..] == "PDF" && lower[6..] == "pdf";
    assert Lower("PDF") == "pdf" && Lower("pdf") == "pdf" by {
      assert LowerChar('P') == 'p' && LowerChar('D') == 'd' && LowerChar('F') == 'f';
    }
    AllowedFileIff(upper);
    AllowedFileIff(lower);
  }

  lemma RejectedExamples()
    ensures !AllowedFile("a.pdf.exe") && !AllowedFile("pdf")
  {
    AllowedFileIff("a.pdf.exe");
    AllowedFileIff("pdf");
  }

  /** Some character of s is not a dot. */
  predicate HasNonDot(s: string) {
    exists i :: 0 <= i < |s| && s[i] != '.'
  }

  /**
   * os.path.splitext for a name without directory separators: the extension
   * starts at the last dot, unless everything before that dot is dots (a
   * "hidden" name such as ".pdf"), in which case there is no extension.
   */
  function SplitExt(name: string): (r: (string, string))
    ensures r.0 + r.1 == name
    ensures r.1 == [] || (r.1[0] == '.' && '.' !in r.1[1..] && HasNonDot(r.0))
    ensures (exists d :: 0 <= d < |name| && name[d] == '.' && HasNonDot(name[..d])) ==> r.1 != []
  {
    match LastIndexOf(name, '.')
    case None => (name, "")
    case Some(d) =>
      assert forall k :: d < k < |name| ==> name[k] != '.' by {
        forall k | d < k < |name| ensures name[k] != '.' {
          assert name[d + 1..][k - d - 1] == name[k];
        }
      }
      assert forall e :: 0 <= e < |name| && name[e] == '.' && HasNonDot(name[..e]) ==> HasNonDot(name[..d]) by {
        forall e | 0 <= e < |name| && name[e] == '.' && HasNonDot(name[..e]) ensures HasNonDot(name[..d]) {
          var i :| 0 <= i < |name[..e]| && name[..e][i] != '.';
          assert name[..d][i] == name[i];
        }
      }
      if HasNonDot(name[..d]) then
        assert name[..d] + name[d..] == name;
        assert name[d..][1..] == name[d + 1..];
        (name[..d], name[d..])
      else (name, "")
  }

  /** The i-th alternative name tried for `name`: base + "_" + i + ext. */
  function Candidate(name: string, i: nat): (c: string)
    ensures |c| >= 2 && c != ""
  {
    var (base, ext) := SplitExt(name);
    base + "_" + Decimal(i) + ext
  }

  /** Different counters give different alternative names. */
  lemma CandidateInjective(name: string, i: nat, j: nat)
    requires Candidate(name, i) == Candidate(name, j)
    ensures i == j
  {
    var parts := SplitExt(name);
    var base, ext := parts.0, parts.1;
    var di, dj := Decimal(i), Decimal(j);
    var ci, cj := base + "_" + di + ext, base + "_" + dj + ext;
    assert ci == Candidate(name, i) && cj == Candidate(name, j);
    assert |di| == |dj|;
    var lo, hi := |base| + 1, |base| + 1 + |di|;
    assert ci[lo..hi] == di;
    assert cj[lo..hi] == dj;
    DecimalInjective(i, j);
  }

  /**
   * os.path.exists(os.path.join(UPLOAD_FOLDER, name)): the name is stored, or
   * it is empty, in which case the path is the upload folder itself.
   */
  predicate PathExists(files: set<string>, name: string) {
    name == "" || name in files
  }

  /**
   * `chosen` is the name an upload of `name` is saved under: `name` itself
   * when it is free, otherwise the alternative with the least counter i >= 1
   * that is free.
   */
  ghost predicate IsFreeName(files: set<string>, name: string, chosen: string) {
    if !PathExists(files, name) then chosen == name
    else exists i: nat :: 1 <= i && chosen == Candidate(name, i) && IsLeastFree(files, name, i)
  }

  /** i is the least counter >= 1 whose alternative name is free. */
  ghost predicate IsLeastFree(files: set<string>, name: string, i: nat) {
    !PathExists(files, Candidate(name, i)) &&
    forall j: nat :: 1 <= j < i ==> PathExists(files, Candidate(name, j))
  }

  /** The name chosen for an upload never overwrites a stored file. */
  lemma {:induction false} FreeNameIsFree(files: set<string>, name: string, chosen: string)
    requires IsFreeName(files, name, chosen)
    ensures !PathExists(files, chosen) && chosen !in files
  {
    if PathExists(files, name) {
      var i: nat :| 1 <= i && chosen == Candidate(name, i) && IsLeastFree(files, name, i);
    }
  }

  /** There is only one name an upload can be saved under. */
  lemma {:induction false} FreeNameUnique(files: set<string>, name: string, a: string, b: string)
    requires IsFreeName(files, name, a) && IsFreeName(files, name, b)
    ensures a == b
  {
    if PathExists(files, name) {
      var i: nat :| 1 <= i && a == Candidate(name, i) && IsLeastFree(files, name, i);
      var j: nat :| 1 <= j && b == Candidate(name, j) && IsLeastFree(files, name, j);
      assert i < j ==> PathExists(files, Candidate(name, i));
      assert j < i ==> PathExists(files, Candidate(name, j));
    }
  }

  /**
   * The renaming in upload_paper: keep `name` if it is free, otherwise count
   * i = 1, 2, ... until base_i.ext is free. `suffix` is the final i, or 0
   * when no renaming happened. The loop ends because every tried name is a
   * distinct stored file and there are finitely many.
   */
  method ResolveName(files: set<string>, name: string) returns (chosen: string, suffix: nat)
    ensures IsFreeName(files, name, chosen)
    ensures !PathExists(files, chosen)
    ensures suffix == 0 <==> chosen == name
    ensures suffix > 0 ==> chosen == Candidate(name, suffix)
  {
    if !PathExists(files, name) {
      return name, 0;
    }
    var i := 1;
    ghost var tried: set<string> := {};
    while PathExists(files, Candidate(name, i))
      invariant 1 <= i
      invariant forall j: nat :: 1 <= j < i ==> PathExists(files, Candidate(name, j))
      invariant forall j: nat :: 1 <= j < i ==> Candidate(name, j) in tried
      invariant forall c :: c in tried ==> exists j: nat :: 1 <= j < i && c == Candidate(name, j)
      invariant tried <= files
      invariant |tried| == i - 1
      decreases |files| - |tried|
    {
      var c := Candidate(name, i);
      if c in tried {
        var j: nat :| 1 <= j < i && c == Candidate(name, j);
        CandidateInjective(name, i, j);
        assert false;
      }
      SubsetCardinality(tried + {c}, files);
      tried := tried + {c};
      i := i + 1;
    }
    chosen, suffix := Candidate(name, i), i;
    assert IsLeastFree(files, name, i);
    if chosen == name {
      assert false;
    }
  }

  lemma {:induction false} SubsetCardinality<T>(a: set<T>, b: set<T>)
    requires a <= b
    ensures |a| <= |b|
  {
    if a != {} {
      var x :| x in a;
      SubsetCardinality(a - {x}, b - {x});
    }
  }
}
