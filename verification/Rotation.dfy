// The rotating file sink over a file system that maps a rotation index to the
// contents of the file with that index; file 0 is the one being written.
module Rotation {

  type Files = map<nat, string>

  ghost function Content(files: Files, i: nat): string {
    if i in files then files[i] else ""
  }

  // The files from index n down to 0, oldest text first.
  ghost function Text(files: Files, n: nat): string {
    Content(files, n) + if n == 0 then "" else Text(files, n - 1)
  }

  ghost predicate IsSuffix(s: string, of: string) {
    |s| <= |of| && of[|of| - |s|..] == s
  }

  lemma SuffixTrans(a: string, b: string, c: string)
    requires IsSuffix(a, b) && IsSuffix(b, c)
    ensures IsSuffix(a, c)
  {
    assert c[|c| - |a|..] == c[|c| - |b|..][|b| - |a|..];
  }

  lemma SuffixAppend(a: string, b: string, m: string)
    requires IsSuffix(a, b)
    ensures IsSuffix(a + m, b + m)
  {
  }

  // One successful rename of file i - 1, if there is one, to index i.
  function Renamed(files: Files, i: nat): Files
    requires i > 0
  {
    if i - 1 in files then (files - {i - 1, i})[i := files[i - 1]] else files
  }

  lemma {:induction false} TextAgrees(a: Files, b: Files, n: nat)
    requires forall i: nat :: i <= n ==> Content(a, i) == Content(b, i)
    ensures Text(a, n) == Text(b, n)
  {
    if n > 0 {
      TextAgrees(a, b, n - 1);
    }
  }

  lemma TextStep(files: Files, n: nat)
    requires n > 0
    ensures Text(files, n) == Content(files, n) + Text(files, n - 1)
    ensures Content(files, n) == "" ==> Text(files, n) == Text(files, n - 1)
  {
    assert "" + Text(files, n - 1) == Text(files, n - 1);
  }

  // The renames to the indices from n down to i + 1.
  ghost function ShiftedTo(files: Files, n: nat, i: nat): Files
    decreases n
  {
    if n <= i then files else ShiftedTo(Renamed(files, n), n - 1, i)
  }

  lemma {:induction false} ShiftedToNext(files: Files, n: nat, i: nat)
    requires 0 < i <= n
    ensures ShiftedTo(files, n, i - 1) == Renamed(ShiftedTo(files, n, i), i)
    decreases n
  {
    if n > i {
      ShiftedToNext(Renamed(files, n), n - 1, i);
    }
  }

  lemma {:induction false} ShiftedToKeeps(files: Files, n: nat, i: nat, k: nat)
    requires k < i || k > n
    ensures k in ShiftedTo(files, n, i) <==> k in files
    ensures k in files ==> ShiftedTo(files, n, i)[k] == files[k]
    decreases n
  {
    if n > i {
      ShiftedToKeeps(Renamed(files, n), n - 1, i, k);
    }
  }

  // What has been moved has left its old index.
  lemma {:induction false} ShiftedToMoves(files: Files, n: nat, i: nat, k: nat)
    requires i <= k < n
    ensures i !in ShiftedTo(files, n, i)
    ensures k in files ==> k + 1 in ShiftedTo(files, n, i) && ShiftedTo(files, n, i)[k + 1] == files[k]
    decreases n
  {
    var r := Renamed(files, n);
    if n == i + 1 {
    } else {
      ShiftedToMoves(r, n - 1, i, if k == n - 1 then i else k);
    }
    if k == n - 1 {
      ShiftedToKeeps(r, n - 1, i, n);
    }
  }

  // The text of the shifted files: only the one on the last index can be lost.
  lemma {:induction false} ShiftedToText(files: Files, n: nat, i: nat)
    requires i <= n
    ensures Text(ShiftedTo(files, n, i), n) == if n > i && n - 1 in files then Text(files, n - 1) else Text(files, n)
    decreases n
  {
    if n > i {
      var r := Renamed(files, n);
      ShiftedToKeeps(r, n - 1, i, n);
      if n == 1 {
        assert Text(r, 0) == "";
      } else {
        hide Text;
        ShiftedToText(r, n - 1, i);
        TextAgrees(r, files, n - 2);
        TopShifted(files, r, ShiftedTo(r, n - 1, i), n, i);
      }
    }
  }

  lemma TopShifted(files: Files, r: Files, shifted: Files, n: nat, i: nat)
    requires n > 1 && n > i && r == Renamed(files, n) && Content(shifted, n) == Content(r, n) && Text(r, n - 2) == Text(files, n - 2)
    requires Text(shifted, n - 1) == if n - 1 > i && n - 2 in r then Text(r, n - 2) else Text(r, n - 1)
    ensures Text(shifted, n) == if n - 1 in files then Text(files, n - 1) else Text(files, n)
  {
    hide Text;
    TextStep(shifted, n);
    TextStep(files, n - 1);
    TextStep(files, n);
    TextStep(r, n - 1);
  }

  // Contents are moved, not changed.
  lemma {:induction false} ShiftedToContents(files: Files, n: nat, i: nat, k: nat)
    requires k in ShiftedTo(files, n, i)
    ensures exists j :: j in files && files[j] == ShiftedTo(files, n, i)[k]
    decreases n
  {
    if n > i {
      var r := Renamed(files, n);
      ShiftedToContents(r, n - 1, i, k);
      var j :| j in r && r[j] == ShiftedTo(files, n, i)[k];
      assert files[if j == n && n - 1 in files then n - 1 else j] == r[j];
    }
  }

  // All the renames of a rotation: every file moves up by one.
  ghost function Shifted(files: Files, n: nat): Files {
    ShiftedTo(files, n, 0)
  }

  // Where each file is while the renames down to index i + 1 have been done: the
  // one with the highest index makes way, unless there is none below it.
  lemma {:induction false} ShiftedExactly(files: Files, n: nat, i: nat, k: nat)
    requires i <= n
    ensures k in ShiftedTo(files, n, i) <==>
            if k < i || k > n || i == n then k in files else k > i && (k - 1 in files || (k == n && n in files))
    ensures k in ShiftedTo(files, n, i) ==>
              ShiftedTo(files, n, i)[k] == files[if i < k <= n && k - 1 in files then k - 1 else k]
    decreases n
  {
    if n > i {
      ShiftedExactly(Renamed(files, n), n - 1, i, k);
    }
  }

  lemma ShiftedMoves(files: Files, n: nat, k: nat)
    requires k < n && k in files
    ensures k + 1 in Shifted(files, n) && Shifted(files, n)[k + 1] == files[k]
  {
    ShiftedToMoves(files, n, 0, k);
  }

  lemma ShiftedText(files: Files, n: nat)
    requires n > 0
    ensures 0 !in Shifted(files, n)
    ensures Text(Shifted(files, n), n) == if n - 1 in files then Text(files, n - 1) else Text(files, n)
  {
    ShiftedToMoves(files, n, 0, 0);
    ShiftedToText(files, n, 0);
  }

  // The files after a rotation without failures.
  ghost function Rotated(files: Files, maxFiles: nat): Files {
    Shifted(files, maxFiles)[0 := ""]
  }

  lemma RotatedText(files: Files, maxFiles: nat)
    ensures IsSuffix(Text(Rotated(files, maxFiles), maxFiles), Text(files, maxFiles))
  {
    var r := Rotated(files, maxFiles);
    if maxFiles == 0 {
      assert Text(r, 0) == "";
    } else {
      ShiftedText(files, maxFiles);
      TextAgrees(r, Shifted(files, maxFiles), maxFiles);
      assert Text(files, maxFiles) == Content(files, maxFiles) + Text(files, maxFiles - 1);
    }
  }

  // After the rename to index i has failed: the file that was in its way is
  // deleted, and file 0 is cut.
  ghost function Failed(files: Files, n: nat, i: nat): Files {
    (ShiftedTo(files, n, i) - {i})[0 := ""]
  }

  // No file but file 0 and the highest one loses its text.
  lemma FailedMoves(files: Files, n: nat, i: nat, k: nat)
    requires 0 < i <= n && 0 < k < n && k in files
    ensures var f, to := Failed(files, n, i), if k < i then k else k + 1; to in f && f[to] == files[k]
  {
    if k < i {
      ShiftedToKeeps(files, n, i, k);
    } else {
      ShiftedToMoves(files, n, i, k);
    }
  }

  lemma {:induction false} CutText(files: Files, n: nat)
    ensures Text(files[0 := ""], n) + Content(files, 0) == Text(files, n)
  {
    var cut := files[0 := ""];
    if n == 0 {
      assert Text(cut, 0) == "" && Text(files, 0) == Content(files, 0);
    } else {
      assert Content(cut, n) == Content(files, n);
      hide Text, Content;
      CutText(files, n - 1);
      TextStep(files, n);
      TextStep(cut, n);
      ConcatAssoc(Content(files, n), Text(cut, n - 1), Content(files, 0));
    }
  }

  lemma ConcatAssoc(a: string, b: string, c: string)
    ensures a + (b + c) == a + b + c
  {
  }

  // So what is kept, followed by what was cut, is all the text but perhaps that
  // of the highest file, as after a rotation.
  lemma FailedText(files: Files, n: nat, i: nat)
    requires 0 < i <= n && i - 1 in ShiftedTo(files, n, i)
    ensures Text(Failed(files, n, i), n) + Content(files, 0) == if n - 1 in files then Text(files, n - 1) else Text(files, n)
  {
    hide Text, ShiftedTo;
    var shifted := ShiftedTo(files, n, i);
    ShiftedToText(files, n, i);
    ShiftedToKeeps(files, n, i, 0);
    CutText(shifted - {i}, n);
    if i < n {
      ShiftedToMoves(files, n, i, i);
      assert shifted - {i} == shifted;
    } else {
      ShiftedToNone(files, n);
      TextAgrees(shifted - {i}, files, n - 1);
      TextStep(shifted - {i}, n);
    }
  }

  lemma ShiftedToNone(files: Files, n: nat)
    ensures ShiftedTo(files, n, n) == files
  {
  }

  lemma WriteText(files: Files, n: nat, m: string)
    requires 0 in files
    ensures Text(files[0 := files[0] + m], n) == Text(files, n) + m
  {
    var w := files[0 := files[0] + m];
    if n > 0 {
      WriteText(files, n - 1, m);
      assert Content(w, n) == Content(files, n);
      assert Content(files, n) + (Text(files, n - 1) + m) == Content(files, n) + Text(files, n - 1) + m;
    } else {
      assert Text(w, 0) == files[0] + m + "" && Text(files, 0) == files[0] + "";
    }
  }

  ghost function Flat(messages: seq<string>): string {
    if messages == [] then "" else Flat(messages[..|messages| - 1]) + messages[|messages| - 1]
  }

  // Everything there was and everything logged since.
  ghost function Logged(initial: Files, maxFiles: nat, messages: seq<string>): string {
    Text(initial, maxFiles) + Flat(messages)
  }

  // A file is within the limit, or holds one message, or was found like this.
  ghost predicate FileOk(content: string, maxSize: nat, found: Files, messages: seq<string>) {
    |content| <= maxSize || content in messages || exists i :: i in found && found[i] == content
  }

  // What was found on opening and all that was written since; and the same
  // since the last rotation that failed, if any did.
  datatype History = History(found: Files, written: seq<string>, base: Files, since: seq<string>)

  ghost predicate Kept(files: Files, maxSize: nat, maxFiles: nat, h: History) {
    && 0 in files && IsSuffix(Text(files, maxFiles), Logged(h.base, maxFiles, h.since))
    && forall i :: i in files ==> FileOk(files[i], maxSize, h.found, h.written)
  }

  lemma RotatedKept(files: Files, maxSize: nat, maxFiles: nat, h: History)
    requires Kept(files, maxSize, maxFiles, h)
    ensures Kept(Rotated(files, maxFiles), maxSize, maxFiles, h)
  {
    var r := Rotated(files, maxFiles);
    RotatedText(files, maxFiles);
    SuffixTrans(Text(r, maxFiles), Text(files, maxFiles), Logged(h.base, maxFiles, h.since));
    forall k | k in r
      ensures FileOk(r[k], maxSize, h.found, h.written)
    {
      if k > 0 {
        ShiftedToContents(files, maxFiles, 0, k);
      }
    }
  }

  // A failed rotation starts a new history of the text; its files are still
  // within the limit.
  lemma FailedKept(files: Files, maxSize: nat, maxFiles: nat, i: nat, h: History)
    requires Kept(files, maxSize, maxFiles, h) && 0 < i <= maxFiles
    ensures var f := Failed(files, maxFiles, i); Kept(f, maxSize, maxFiles, h.(base := f, since := []))
  {
    var f := Failed(files, maxFiles, i);
    assert Logged(f, maxFiles, []) == Text(f, maxFiles);
    forall k | k in f
      ensures FileOk(f[k], maxSize, h.found, h.written)
    {
      if k > 0 {
        ShiftedToContents(files, maxFiles, i, k);
      }
    }
  }

  lemma LoggedMore(initial: Files, maxFiles: nat, messages: seq<string>, m: string)
    ensures Logged(initial, maxFiles, messages + [m]) == Logged(initial, maxFiles, messages) + m
  {
    assert (messages + [m])[..|messages|] == messages;
    assert Text(initial, maxFiles) + (Flat(messages) + m) == Text(initial, maxFiles) + Flat(messages) + m;
  }

  lemma FileStaysOk(content: string, maxSize: nat, found: Files, messages: seq<string>, m: string)
    requires FileOk(content, maxSize, found, messages)
    ensures FileOk(content, maxSize, found, messages + [m])
  {
  }

  ghost function WithMessage(h: History, m: string): History {
    h.(written := h.written + [m], since := h.since + [m])
  }

  lemma WrittenKept(files: Files, maxSize: nat, maxFiles: nat, h: History, m: string)
    requires Kept(files, maxSize, maxFiles, h)
    requires |files[0]| + |m| <= maxSize || files[0] == ""
    ensures Kept(files[0 := files[0] + m], maxSize, maxFiles, WithMessage(h, m))
  {
    var w := files[0 := files[0] + m];
    WriteText(files, maxFiles, m);
    LoggedMore(h.base, maxFiles, h.since, m);
    SuffixAppend(Text(files, maxFiles), Logged(h.base, maxFiles, h.since), m);
    forall k | k in w
      ensures FileOk(w[k], maxSize, h.found, h.written + [m])
    {
      if k == 0 {
        NewFileOk(files[0], maxSize, h.found, h.written, m);
      } else {
        FileStaysOk(files[k], maxSize, h.found, h.written, m);
      }
    }
  }

  lemma NewFileOk(content: string, maxSize: nat, found: Files, messages: seq<string>, m: string)
    requires |content| + |m| <= maxSize || content == ""
    ensures FileOk(content + m, maxSize, found, messages + [m])
  {
    if content == "" {
      assert content + m == m && (messages + [m])[|messages|] == m;
    }
  }

  class RotatingFileSink {
    const maxSize: nat
    const maxFiles: nat
    var files: Files
    var currentSize: nat
    ghost var history: History
    // By how much currentSize overstates file 0: a rotation on opening leaves it
    // at the size of the file that was moved away.
    ghost var stale: nat

    ghost predicate Valid()
      reads this
    {
      Kept(files, maxSize, maxFiles, history) && currentSize == |files[0]| + stale
    }

    constructor (before: Files, maxSize: nat, maxFiles: nat, rotateOnOpen: bool)
      ensures Valid() && this.maxSize == maxSize && this.maxFiles == maxFiles
      ensures var found := Content(before, 0);
              && history == History(before[0 := found], [], before[0 := found], [])
              && stale == (if rotateOnOpen then |found| else 0)
              && files == if rotateOnOpen && |found| > 0 then Rotated(before, maxFiles) else before[0 := found]
    {
      this.maxSize, this.maxFiles := maxSize, maxFiles;
      files := if 0 in before then before else before[0 := ""];
      currentSize := if 0 in before then |before[0]| else 0;
      history, stale := History(before[0 := Content(before, 0)], [], before[0 := Content(before, 0)], []), 0;
      new;
      assert files == history.base && Logged(history.base, maxFiles, []) == Text(history.base, maxFiles);
      if rotateOnOpen && currentSize > 0 {
        assert before[0 := before[0]] == before;
        var ok, failed := Rotate(_ => true);
        stale := currentSize;
      }
    }

    // Moves the files up. `renames(i)` says whether the rename to index i works,
    // on one of its two attempts; if not, file 0 is cut all the same and the
    // caller gets an exception. `failed` is the index then.
    method Rotate(renames: nat -> bool) returns (ok: bool, ghost failed: nat)
      requires Kept(files, maxSize, maxFiles, history)
      modifies this`files, this`currentSize, this`history
      ensures 0 in files && files[0] == ""
      ensures ok <== forall i: nat :: renames(i)
      ensures ok ==> files == Rotated(old(files), maxFiles) && currentSize == old(currentSize) && history == old(history)
      ensures !ok ==> 0 < failed <= maxFiles && !renames(failed) && files == Failed(old(files), maxFiles, failed)
      ensures !ok ==> failed - 1 in ShiftedTo(old(files), maxFiles, failed)
      ensures !ok ==> currentSize == 0 && history == old(history).(base := files, since := [])
      ensures Kept(files, maxSize, maxFiles, history)
    {
      ghost var before := files;
      RotatedKept(before, maxSize, maxFiles, history);
      failed := 0;
      var i := maxFiles;
      while i > 0
        invariant 0 <= i <= maxFiles && files == ShiftedTo(before, maxFiles, i) && currentSize == old(currentSize)
        invariant history == old(history)
      {
        if i - 1 in files {
          if !renames(i) {
            FailedKept(before, maxSize, maxFiles, i, history);
            files := (files - {i})[0 := ""];
            currentSize := 0;
            history := history.(base := files, since := []);
            return false, i;
          }
          files := (files - {i - 1, i})[i := files[i - 1]];
        }
        ShiftedToNext(before, maxFiles, i);
        i := i - 1;
      }
      files := files[0 := ""];
      ok := true;
    }

    // Writes one message, to a fresh file if the current one has no room for it.
    // After a failed rotation it is lost, and the sink goes on with an empty file.
    method SinkIt(formatted: string, renames: nat -> bool) returns (ok: bool, ghost failed: nat)
      requires Valid()
      modifies this
      ensures Valid()
      ensures ok <== forall i: nat :: renames(i)
      ensures ok ==> history == WithMessage(old(history), formatted)
      ensures ok ==> files == if old(currentSize) + |formatted| > maxSize
                              then Rotated(old(files), maxFiles)[0 := formatted]
                              else old(files)[0 := old(files)[0] + formatted]
      ensures ok ==> stale == if old(currentSize) + |formatted| > maxSize then 0 else old(stale)
      ensures !ok ==> 0 < failed <= maxFiles && !renames(failed) && files == Failed(old(files), maxFiles, failed)
      ensures !ok ==> failed - 1 in ShiftedTo(old(files), maxFiles, failed)
      ensures !ok ==> files[0] == "" && currentSize == stale == 0 && history == old(history).(base := files, since := [])
    {
      currentSize := currentSize + |formatted|;
      failed := 0;
      if currentSize > maxSize {
        ok, failed := Rotate(renames);
        stale := 0;
        if !ok {
          return;
        }
        currentSize := |formatted|;
        assert "" + formatted == formatted;
      }
      WrittenKept(files, maxSize, maxFiles, history, formatted);
      files := files[0 := files[0] + formatted];
      history := WithMessage(history, formatted);
      ok := true;
    }
  }
}
