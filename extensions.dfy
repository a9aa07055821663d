/**
 * The extension allow-list check `allowed_file`. The three revisions of the upload code each
 * define it with the same body; they differ only in where the allow-list comes from.
 */
module Extensions {
  import opened PosixPath

  /** The allow-list every revision configures. */
  const DefaultAllowedExtensions: set<string> := {".txt", ".png", ".jpg", ".jpeg", ".gif"}

  /**
   * `splitext(filename)[1].lower() in allowed`. In terms of the reference split: a name with an
   * extension is allowed iff its lower-cased extension is listed; a name without one iff `""`
   * is listed.
   */
  function AllowedFile(filename: string, allowed: set<string>): (ok: bool)
    ensures forall i :: ValidSplitAt(filename, i) ==> (ok <==> Lower(filename[i..]) in allowed)
    ensures (forall i :: !ValidSplitAt(filename, i)) ==> (ok <==> "" in allowed)
  {
    SplitextFindsSplit(filename);
    SplitextAtEvery(filename);
    assert Lower("") == "";
    Lower(Splitext(filename).1) in allowed
  }

  /**
   * A name with no dot, or whose only dot is its first character, has no extension and is
   * rejected by any allow-list that does not list `""`.
   */
  lemma NoExtensionRejected(filename: string, allowed: set<string>)
    requires "" !in allowed
    requires forall k :: 0 < k < |filename| ==> filename[k] != ExtSep
    ensures !AllowedFile(filename, allowed)
  {
    assert forall i :: !ValidSplitAt(filename, i);
  }

  /** The check ignores ASCII case: names equal up to case are both allowed or both rejected. */
  lemma AllowedFileIgnoresCase(f: string, g: string, allowed: set<string>)
    requires Lower(f) == Lower(g)
    ensures AllowedFile(f, allowed) <==> AllowedFile(g, allowed)
  {
    SplitextLower(f);
    SplitextLower(g);
    LowerIdempotent(Splitext(f).1);
    LowerIdempotent(Splitext(g).1);
  }

  lemma LowerIdempotent(s: string)
    ensures Lower(Lower(s)) == Lower(s)
  {
  }

  /** The default allow-list accepts `photo.JPG` and rejects `malware.exe` and `.gif`. */
  lemma DefaultExamples()
    ensures AllowedFile("photo.JPG", DefaultAllowedExtensions)
    ensures !AllowedFile("malware.exe", DefaultAllowedExtensions)
    ensures !AllowedFile(".gif", DefaultAllowedExtensions)
  {
    var photo := "photo.JPG";
    assert photo[0] != ExtSep && NoSepBetween(photo, 0, 5);
    assert ValidSplitAt(photo, 5);
    assert Lower(photo[5..]) == ".jpg";

    var exe := "malware.exe";
    assert exe[0] != ExtSep && NoSepBetween(exe, 0, 7);
    assert ValidSplitAt(exe, 7);
    assert Lower(exe[7..]) == ".exe";

    NoExtensionRejected(".gif", DefaultAllowedExtensions);
  }
}
