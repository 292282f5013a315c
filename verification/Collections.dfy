/** What several of the modules need of sequences and optional values. */
module Collections {
  datatype Option<T> = None | Some(value: T)

  ghost predicate NoRepeats<T>(s: seq<T>) {
    forall i, j :: 0 <= i < j < |s| ==> s[i] != s[j]
  }

  /** A queue without repeats, after one more has come or the first has gone. */
  lemma NoRepeatsParts<T>(s: seq<T>, t: T)
    requires NoRepeats(s)
    ensures t !in s ==> NoRepeats(s + [t])
    ensures s != [] ==> NoRepeats(s[1..]) && forall u :: u in s[1..] <==> u in s && u != s[0]
  {
    if s != [] {
      forall u | u in s && u != s[0] ensures u in s[1..] {
        var i :| 0 <= i < |s| && s[i] == u;
        assert s[1..][i - 1] == u;
      }
    }
  }
}
