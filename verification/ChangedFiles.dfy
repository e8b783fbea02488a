/** The paged list of a pull request's files (`pull_request_files` in `ci/github.py`). */
module ChangedFiles {
  import opened Options
  import opened Pages

  /** One entry of the response; entries without a usable name are skipped. */
  datatype File = File(removed: bool, name: Option<string>) {
    predicate Collected() {
      !removed && name.Some?
    }
  }

  /** The names to collect, in order. */
  function Names(files: seq<File>): seq<string> {
    if files == [] then []
    else
      var last := files[|files| - 1];
      Names(files[..|files| - 1]) + (if last.Collected() then [last.name.value] else [])
  }

  lemma OneMoreName(files: seq<File>, k: nat)
    requires k < |files|
    ensures Names(files[..k + 1]) ==
            Names(files[..k]) + (if files[k].Collected() then [files[k].name.value] else [])
  {
    assert files[..k + 1][..k] == files[..k];
  }

  /** Pages until a short or empty one, at most `maxPages` of them. */
  method PullRequestFiles(files: seq<File>, maxPages: nat) returns (paths: seq<string>)
    ensures paths == Names(files[..Min(PER_PAGE * maxPages, |files|)])
  {
    paths := [];
    for page := 1 to maxPages + 1
      invariant PER_PAGE * (page - 1) <= |files|
      invariant paths == Names(files[..PER_PAGE * (page - 1)])
    {
      var start := PER_PAGE * (page - 1);
      var batch := Page(files, page);
      if batch == [] {
        assert start == |files|;
        return;
      }
      for i := 0 to |batch|
        invariant paths == Names(files[..start + i])
      {
        OneMoreName(files, start + i);
        if batch[i].Collected() {
          paths := paths + [batch[i].name.value];
        }
      }
      if |batch| < PER_PAGE {
        assert start + |batch| == |files|;
        return;
      }
    }
  }

  lemma {:induction false} NamesSplit(a: seq<File>, b: seq<File>)
    ensures Names(a + b) == Names(a) + Names(b)
  {
    if b == [] {
      assert a + b == a;
    } else {
      var n := |b| - 1;
      assert (a + b)[..|a| + n] == a + b[..n];
      NamesSplit(a, b[..n]);
    }
  }

  lemma {:induction false} NoNames(files: seq<File>)
    ensures Names(files) == [] <==> forall f <- files :: !f.Collected()
  {
    if files != [] {
      var n := |files| - 1;
      assert files == files[..n] + [files[n]];
      NoNames(files[..n]);
    }
  }

  /** The list is complete exactly when nothing beyond the page cap would have been collected. */
  lemma CompleteIff(files: seq<File>, maxPages: nat)
    ensures var cap := Min(PER_PAGE * maxPages, |files|);
            Names(files[..cap]) == Names(files) <==> forall f <- files[cap..] :: !f.Collected()
  {
    var cap := Min(PER_PAGE * maxPages, |files|);
    assert files == files[..cap] + files[cap..];
    NamesSplit(files[..cap], files[cap..]);
    NoNames(files[cap..]);
  }

  /** A name is listed exactly when some entry has it and was not removed; one entry gives its own name. */
  lemma {:induction false} NamesAreSurvivors(files: seq<File>, name: string)
    ensures name in Names(files) <==> exists i :: 0 <= i < |files| && !files[i].removed && files[i].name == Some(name)
    ensures |files| == 1 && !files[0].removed && files[0].name.Some? ==> Names(files) == [files[0].name.value]
  {
    if files != [] {
      var n := |files| - 1;
      NamesAreSurvivors(files[..n], name);
      assert forall i :: 0 <= i < n ==> files[..n][i] == files[i];
    }
  }
}
