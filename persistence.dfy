/**
 * `save_text` (web_crawlar/script.py:40-44) writes a file of the `data`
 * directory, replacing any earlier content.  The model keeps the sequence of
 * writes and the directory it leaves behind, a map from file name to content.
 */
module Persistence {

  datatype Write = Write(filename: string, content: string)

  /** The `data` directory after the writes of `log`, in order, each one overwriting. */
  function Persist(log: seq<Write>): (files: map<string, string>)
    ensures files.Keys == set w | w in log :: w.filename
  {
    if log == [] then map[]
    else
      var last := log[|log| - 1];
      var before := log[..|log| - 1];
      assert log == before + [last];
      Persist(before)[last.filename := last.content]
  }

  /** A file holds what the last write to its name put there. */
  lemma {:induction false} PersistLastWrite(log: seq<Write>, i: nat)
    requires i < |log|
    requires forall j :: i < j < |log| ==> log[j].filename != log[i].filename
    ensures log[i].filename in Persist(log) && Persist(log)[log[i].filename] == log[i].content
  {
    if i < |log| - 1 {
      PersistLastWrite(log[..|log| - 1], i);
    }
  }

  /** When every write names a different file, nothing is overwritten. */
  lemma NothingOverwritten(log: seq<Write>)
    requires forall i, j :: 0 <= i < j < |log| ==> log[i].filename != log[j].filename
    ensures |Persist(log)| == |log|
    ensures forall i :: 0 <= i < |log| ==> Persist(log)[log[i].filename] == log[i].content
  {
    forall i | 0 <= i < |log| ensures Persist(log)[log[i].filename] == log[i].content {
      PersistLastWrite(log, i);
    }
    FilenamesCount(log);
  }

  lemma {:induction false} FilenamesCount(log: seq<Write>)
    requires forall i, j :: 0 <= i < j < |log| ==> log[i].filename != log[j].filename
    ensures |set w | w in log :: w.filename| == |log|
  {
    if log != [] {
      var before := log[..|log| - 1];
      FilenamesCount(before);
      assert (set w | w in log :: w.filename) == (set w | w in before :: w.filename) + {log[|log| - 1].filename};
    }
  }
}
