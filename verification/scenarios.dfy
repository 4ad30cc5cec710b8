/** The hook's test scenarios, each as a concrete request and its decision. */
module WorkerScenarios {
  import opened Options
  import opened Strings
  import opened Types
  import opened Worker

  const AnonymousUser := UserContext("anonymous", false, "anonymous")

  function PathTo(key: string): RepoPath {
    RepoPath(key, "/test/artifact", key + ":/test/artifact", false, false)
  }

  function Requesting(user: UserContext, key: string): Request {
    Request(Some(DownloadMetadata(Some(PathTo(key)), None)), Some(user))
  }

  /** An anonymous request for a virtual repository that resolves to `original`. */
  function Through(requested: string, original: string): Request {
    Request(Some(DownloadMetadata(Some(PathTo(requested)), Some(PathTo(original)))), Some(AnonymousUser))
  }

  // The keys of the scenarios.
  const MyLocalRepo := "my-local-repo"
  const RemoteLocalRepo := "remote-local-repo"
  const RemoteRepo := "remote-repo"
  const VirtualRepo := "virtual-repo"
  const C1 := "c1"
  const UpperCaseLocalRepo := "MY-LOCAL-REPO"

  // The policy on keys given character by character, so that it can be
  // applied to the scenario keys without evaluating it on them.

  /** A key that folds to a string with "local" at offset `i` blocks. */
  lemma FoldsToOccurrence(key: string, lower: string, i: int)
    requires |key| == |lower| && forall j :: 0 <= j < |key| ==> LowerChar(key[j]) == lower[j]
    requires OccursAt(lower, BlockedFragment, i)
    ensures Blocks(key)
  {
    ToLowerPointwise(key, lower);
    OccurrenceBlocks(key, i);
  }

  /** A key without upper-case letters and with "local" at offset `i` blocks. */
  lemma LowerCaseOccurrence(key: string, i: int)
    requires forall j :: 0 <= j < |key| ==> !IsUpper(key[j])
    requires OccursAt(key, BlockedFragment, i)
    ensures Blocks(key)
  {
    ToLowerOfLowerCase(key);
    OccurrenceBlocks(key, i);
  }

  /** A key without upper-case letters in which `l` is never followed by `o` does not block. */
  lemma LowerCaseWithoutLo(key: string)
    requires forall j :: 0 <= j < |key| ==> !IsUpper(key[j])
    requires forall j :: 0 <= j < |key| - 1 ==> key[j] != 'l' || key[j + 1] != 'o'
    ensures !Blocks(key)
  {
    ToLowerOfLowerCase(key);
    NoAdjacentPairNoContains(key, BlockedFragment);
  }

  /** "my-local-repo" has "local" at offset 3. */
  lemma MyLocalRepoBlocks()
    ensures Blocks(MyLocalRepo)
  {
    LowerCaseOccurrence(MyLocalRepo, 3);
  }

  /** "virtual-repo" has an `l`, but no `l` followed by `o`. */
  lemma VirtualRepoDoesNotBlock()
    ensures !Blocks(VirtualRepo)
  {
    LowerCaseWithoutLo(VirtualRepo);
  }

  /** An anonymous user asking for a blocking key is stopped with a message naming it. */
  lemma AnonymousStoppedAt(key: string)
    requires Blocks(key)
    ensures Decide(Requesting(AnonymousUser, key)) == Response(STOP, BlockedPrefix + key, Some(PathTo(key)))
  {
    RequestedKeyWins(Requesting(AnonymousUser, key));
  }

  /**
   * An anonymous user asking for a virtual repository whose own key does
   * not block, but whose original key does, is stopped at the original key.
   */
  lemma AnonymousStoppedThrough(requested: string, original: string)
    requires requested != "" && !Blocks(requested)
    requires Blocks(original)
    ensures Decide(Through(requested, original)) == Response(STOP, BlockedPrefix + original, Some(PathTo(requested)))
  {
    OriginalKeyNamed(Through(requested, original));
  }

  /** An anonymous user asking for a key that does not block proceeds. */
  lemma AnonymousProceedsAt(key: string)
    requires !Blocks(key)
    ensures Decide(Requesting(AnonymousUser, key)) == Response(PROCEED, AllowedMessage, Some(PathTo(key)))
  {
    StopIffSomeKeyBlocks(Requesting(AnonymousUser, key));
  }

  // The scenarios.

  /** An authenticated user may download from a repository whose key contains "local". */
  lemma AuthenticatedUserProceeds()
    ensures Decide(Requesting(UserContext("authenticated-user", false, "internal"), MyLocalRepo)).status == PROCEED
  {
    var user := UserContext("authenticated-user", false, "internal");
    assert !StartsWith(user.id, AnonymousIdPrefix) by {
      assert user.id[1] != AnonymousIdPrefix[1];
    }
    NonAnonymousProceeds(Requesting(user, MyLocalRepo));
  }

  /** An anonymous user is stopped at "my-local-repo". */
  lemma AnonymousStoppedAtLocalRepo()
    ensures Decide(Requesting(AnonymousUser, MyLocalRepo)).status == STOP
    ensures Decide(Requesting(AnonymousUser, MyLocalRepo)).message == BlockedPrefix + MyLocalRepo
  {
    MyLocalRepoBlocks();
    AnonymousStoppedAt(MyLocalRepo);
  }

  /** An anonymous user may download from "c1". */
  lemma AnonymousProceedsAtC1()
    ensures Decide(Requesting(AnonymousUser, C1)).status == PROCEED
  {
    NoLetterLNeverBlocks(C1);
    AnonymousProceedsAt(C1);
  }

  /** An anonymous user may download from a repository without "local" in its key. */
  lemma AnonymousProceedsAtRemoteRepo()
    ensures Decide(Requesting(AnonymousUser, RemoteRepo)).status == PROCEED
  {
    NoLetterLNeverBlocks(RemoteRepo);
    AnonymousProceedsAt(RemoteRepo);
  }

  /** The policy looks at the key only, so a remote repository with "local" in its key stops too. */
  lemma AnonymousStoppedAtRemoteLocalRepo()
    ensures Decide(Requesting(AnonymousUser, RemoteLocalRepo)).status == STOP
    ensures Decide(Requesting(AnonymousUser, RemoteLocalRepo)).message == BlockedPrefix + RemoteLocalRepo
  {
    LowerCaseOccurrence(RemoteLocalRepo, 7);
    AnonymousStoppedAt(RemoteLocalRepo);
  }

  /** A virtual repository resolving to "my-local-repo" stops, naming the original key. */
  lemma AnonymousStoppedAtVirtualRepoOverLocal()
    ensures Decide(Through(VirtualRepo, MyLocalRepo)) == Response(STOP, BlockedPrefix + MyLocalRepo, Some(PathTo(VirtualRepo)))
  {
    VirtualRepoDoesNotBlock();
    MyLocalRepoBlocks();
    AnonymousStoppedThrough(VirtualRepo, MyLocalRepo);
  }

  /** Identity fields are compared case-sensitively: "Anonymous" in the "internal" realm is not anonymous. */
  lemma IdentityIsCaseSensitive()
    ensures !IsAnonymous(Some(UserContext("Anonymous", false, "internal")))
  {
    assert "Anonymous"[0] != AnonymousIdPrefix[0];
  }

  /** Repository keys are compared ignoring case: "MY-LOCAL-REPO" stops an anonymous user. */
  lemma UpperCaseKeyStops()
    ensures Decide(Requesting(AnonymousUser, UpperCaseLocalRepo)).status == STOP
  {
    FoldsToOccurrence(UpperCaseLocalRepo, MyLocalRepo, 3);
    AnonymousStoppedAt(UpperCaseLocalRepo);
  }
}
