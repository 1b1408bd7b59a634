/** The unsupported-extension notices, over what the walk observes of each
    file: whether it is copied, and the extension it would report. The set
    of extensions already printed makes each one appear once. */
module Report {

  /** What the walk looks at in a file when it decides on a notice. */
  datatype Seen = Seen(copied: bool, extension: string)

  /** The notices printed for the observed files, in order: the extension of
      a file that is not copied is printed unless it was printed before. */
  function Notices(seen: seq<Seen>): seq<string>
  {
    if seen == [] then
      []
    else
      var before := Notices(seen[..|seen| - 1]);
      var s := seen[|seen| - 1];
      if !s.copied && s.extension !in before then before + [s.extension] else before
  }

  /** Handling one more observation extends the notices printed so far. */
  lemma NoticesSnoc(seen: seq<Seen>, s: Seen)
    ensures Notices(seen + [s]) ==
      if !s.copied && s.extension !in Notices(seen) then Notices(seen) + [s.extension] else Notices(seen)
  {
    assert (seen + [s])[..|seen|] == seen;
  }

  /** No extension is printed twice. */
  lemma {:induction false} NoticesDistinct(seen: seq<Seen>)
    ensures forall a, b :: 0 <= a < b < |Notices(seen)| ==> Notices(seen)[a] != Notices(seen)[b]
  {
    if seen != [] {
      var prefix := seen[..|seen| - 1];
      var s := seen[|seen| - 1];
      var before := Notices(prefix);
      NoticesDistinct(prefix);
      if !s.copied && s.extension !in before {
        var printed := before + [s.extension];
        forall a, b | 0 <= a < b < |printed| ensures printed[a] != printed[b] {
          if b == |before| {
            assert printed[a] == before[a];
          } else {
            assert printed[a] == before[a] && printed[b] == before[b];
          }
        }
      }
    }
  }

  /** Each printed extension is that of a file that is not copied. */
  lemma {:induction false} NoticesSound(seen: seq<Seen>, e: string)
    requires e in Notices(seen)
    ensures exists i :: 0 <= i < |seen| && !seen[i].copied && seen[i].extension == e
  {
    var m := |seen| - 1;
    var prefix := seen[..m];
    if e in Notices(prefix) {
      NoticesSound(prefix, e);
      var i :| 0 <= i < |prefix| && !prefix[i].copied && prefix[i].extension == e;
      assert seen[i] == prefix[i];
    } else {
      assert !seen[m].copied && seen[m].extension == e;
    }
  }

  /** The extension of every file that is not copied is printed. */
  lemma {:induction false} NoticesComplete(seen: seq<Seen>, i: nat)
    requires i < |seen| && !seen[i].copied
    ensures seen[i].extension in Notices(seen)
  {
    var m := |seen| - 1;
    if i < m {
      assert seen[..m][i] == seen[i];
      NoticesComplete(seen[..m], i);
    }
  }

  /** A file that is not copied and is the first such file with its extension. */
  ghost predicate FirstSeen(seen: seq<Seen>, i: int, e: string)
    requires 0 <= i < |seen|
  {
    && !seen[i].copied
    && seen[i].extension == e
    && forall j :: 0 <= j < i && !seen[j].copied ==> seen[j].extension != e
  }

  /** The k-th notice is printed while handling the first file that is not
      copied and has that extension, after exactly the k notices before it. */
  lemma {:induction false} NoticesInOrder(seen: seq<Seen>, k: nat)
    requires k < |Notices(seen)|
    ensures exists i :: (0 <= i < |seen| && FirstSeen(seen, i, Notices(seen)[k])
      && Notices(seen[..i]) == Notices(seen)[..k])
  {
    var m := |seen| - 1;
    var prefix := seen[..m];
    var before := Notices(prefix);
    var printed := Notices(seen);
    assert printed[..|before|] == before;
    if k < |before| {
      NoticesInOrder(prefix, k);
      var i :| 0 <= i < |prefix| && FirstSeen(prefix, i, before[k]) && Notices(prefix[..i]) == before[..k];
      assert prefix[..i] == seen[..i];
      assert printed[..k] == before[..k];
      forall j | 0 <= j <= i ensures seen[j] == prefix[j] {
      }
      assert FirstSeen(seen, i, printed[k]);
    } else {
      var e := printed[k];
      forall j | 0 <= j < m && !seen[j].copied ensures seen[j].extension != e {
        assert prefix[j] == seen[j];
        NoticesComplete(prefix, j);
      }
      assert FirstSeen(seen, m, e);
    }
  }
}
