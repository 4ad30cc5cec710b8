/**
 * The before-download hook: anonymous requesters may not download from a
 * repository whose key contains "local" (ignoring case), with the key "c1"
 * exempt. Everything else proceeds.
 */
module Worker {
  import opened Options
  import opened Strings
  import opened Types

  const AnonymousId := "anonymous"
  const AnonymousIdPrefix := "anonymous@"
  const AnonymousRealm := "anonymous"
  const BlockedFragment := "local"
  const ExemptKey := "c1"
  // Spelled as two literals so that the verifier sees the characters of the whole text.
  const BlockedPrefix := "Anonymous users are not allowed" + " to download from repository: "
  const AllowedMessage := "Download request allowed"
  const ErrorPrefix := "Error processing download request: "
  const UnknownError := "Unknown error"

  /**
   * The anonymity test, disjunct for disjunct as the hook writes it; a
   * string is falsy exactly when it is empty, so `!id` is `id == ""`.
   * The comparisons are case-sensitive.
   */
  predicate IsAnonymous(user: Option<UserContext>) {
    || user.None?
    || user.value.id == ""
    || user.value.id == AnonymousId
    || StartsWith(user.value.id, AnonymousIdPrefix)
    || user.value.realm == AnonymousRealm
    || user.value.id == ""
  }

  /**
   * The five ways to be anonymous; the trailing `id == ""` test of the hook
   * adds nothing, since an empty id is already falsy.
   */
  lemma IsAnonymousIff(user: Option<UserContext>)
    ensures IsAnonymous(user) <==>
      || user.None?
      || |user.value.id| == 0
      || user.value.id == "anonymous"
      || (|user.value.id| >= 10 && user.value.id[..10] == "anonymous@")
      || user.value.realm == "anonymous"
  {
    if user.Some? {
      StartsWithIffPrefix(user.value.id, AnonymousIdPrefix);
    }
  }

  /** `path?.key` used as a condition: the key, when the path is present and its key non-empty. */
  function KeyOf(path: Option<RepoPath>): Option<string> {
    if path.Some? && path.value.key != "" then Some(path.value.key) else None
  }

  /** The candidate keys: the requested repository's, then the original repository's. */
  function CollectRepoKeys(meta: DownloadMetadata): (keys: seq<string>)
    ensures |keys| <= 2
    ensures forall i :: 0 <= i < |keys| ==> keys[i] != ""
    ensures forall k :: k in keys <==>
      || (meta.repoPath.Some? && meta.repoPath.value.key == k != "")
      || (meta.originalRepoPath.Some? && meta.originalRepoPath.value.key == k != "")
    ensures |keys| == (if KeyOf(meta.repoPath).Some? then 1 else 0) + (if KeyOf(meta.originalRepoPath).Some? then 1 else 0)
    ensures KeyOf(meta.repoPath).Some? ==> |keys| >= 1 && keys[0] == meta.repoPath.value.key
    ensures KeyOf(meta.originalRepoPath).Some? ==> |keys| >= 1 && keys[|keys| - 1] == meta.originalRepoPath.value.key
  {
    var requested := if KeyOf(meta.repoPath).Some? then [KeyOf(meta.repoPath).value] else [];
    var original := if KeyOf(meta.originalRepoPath).Some? then [KeyOf(meta.originalRepoPath).value] else [];
    requested + original
  }

  /** The policy: the lower-cased key contains "local" and is not "c1". */
  predicate Blocks(key: string) {
    var lower := ToLower(key);
    Contains(lower, BlockedFragment) && lower != ExemptKey
  }

  /** The first blocking key, scanning in order; `None` when no key blocks. */
  function FirstBlocking(keys: seq<string>): (r: Option<string>)
    ensures r.None? <==> forall i :: 0 <= i < |keys| ==> !Blocks(keys[i])
    ensures r.Some? ==>
      exists i :: 0 <= i < |keys| && keys[i] == r.value && Blocks(r.value)
        && forall j :: 0 <= j < i ==> !Blocks(keys[j])
  {
    if keys == [] then None
    else if Blocks(keys[0]) then Some(keys[0])
    else
      var rest := FirstBlocking(keys[1..]);
      assert forall i :: 1 <= i < |keys| ==> keys[i] == keys[1..][i - 1];
      rest
  }

  /** The response on the stop path names the key exactly as supplied. */
  function BlockedMessage(key: string): (m: string)
    ensures |m| == |BlockedPrefix| + |key|
    ensures m[..|BlockedPrefix|] == BlockedPrefix && m[|BlockedPrefix|..] == key
  {
    BlockedPrefix + key
  }

  /** The message of the fail-closed branch; an empty cause reads as "Unknown error". */
  function ErrorMessage(cause: string): (m: string)
    ensures |ErrorPrefix| < |m| && m[..|ErrorPrefix|] == ErrorPrefix
    ensures cause != "" ==> m[|ErrorPrefix|..] == cause
    ensures cause == "" ==> m[|ErrorPrefix|..] == UnknownError
  {
    ErrorPrefix + (if cause != "" then cause else UnknownError)
  }

  /** `data.metadata?.repoPath`: what the response echoes as the modified path. */
  function PassThrough(req: Request): Option<RepoPath> {
    if req.metadata.Some? then req.metadata.value.repoPath else None
  }

  /** The decision of the hook's body when nothing in it throws. */
  function Decide(req: Request): (r: Response)
    ensures r.status == STOP <==>
      && req.metadata.Some?
      && IsAnonymous(req.userContext)
      && (exists i :: 0 <= i < |CollectRepoKeys(req.metadata.value)| && Blocks(CollectRepoKeys(req.metadata.value)[i]))
    ensures r.status == PROCEED ==> r.message == AllowedMessage
    ensures r.status == STOP ==>
      && |BlockedPrefix| < |r.message|
      && r.message[..|BlockedPrefix|] == BlockedPrefix
      && r.message[|BlockedPrefix|..] in CollectRepoKeys(req.metadata.value)
      && Blocks(r.message[|BlockedPrefix|..])
    ensures req.metadata.Some? ==> r.modifiedRepoPath == req.metadata.value.repoPath
    ensures req.metadata.None? ==> r.modifiedRepoPath.None?
  {
    if IsAnonymous(req.userContext) && req.metadata.Some? then
      match FirstBlocking(CollectRepoKeys(req.metadata.value))
      case Some(key) => Response(STOP, BlockedMessage(key), req.metadata.value.repoPath)
      case None => Response(PROCEED, AllowedMessage, PassThrough(req))
    else
      Response(PROCEED, AllowedMessage, PassThrough(req))
  }

  /**
   * The hook as it runs: the scan over the candidate keys with an early
   * return, inside a guard that turns a failure into a stop. `fault` is the
   * message of an error raised while reading the request, if one is raised.
   */
  method Run(req: Request, fault: Option<string>) returns (r: Response)
    ensures fault.Some? ==> r == Response(STOP, ErrorMessage(fault.value), PassThrough(req))
    ensures fault.None? ==> r == Decide(req)
  {
    if fault.Some? {
      return Response(STOP, ErrorMessage(fault.value), PassThrough(req));
    }
    if IsAnonymous(req.userContext) && req.metadata.Some? {
      var keys := CollectRepoKeys(req.metadata.value);
      var i := 0;
      while i < |keys|
        invariant 0 <= i <= |keys|
        invariant forall j :: 0 <= j < i ==> !Blocks(keys[j])
      {
        var key := keys[i];
        var lower := ToLower(key);
        if Contains(lower, BlockedFragment) && lower != ExemptKey {
          return Response(STOP, BlockedMessage(key), req.metadata.value.repoPath);
        }
        i := i + 1;
      }
    }
    r := Response(PROCEED, AllowedMessage, PassThrough(req));
  }

  // ---------------------------------------------------------------------
  // Properties of the decision

  /** The "c1" exemption never applies: a key containing "local" is at least five characters long. */
  lemma ExemptionIsVacuous(key: string)
    ensures Blocks(key) <==> Contains(ToLower(key), "local")
  {
    if Contains(ToLower(key), BlockedFragment) {
      ContainsIsBounded(ToLower(key), BlockedFragment);
    }
  }

  /** Matching ignores ASCII case: a key blocks exactly when its lower-cased form does. */
  lemma BlocksIgnoresCase(key: string)
    ensures Blocks(ToLower(key)) == Blocks(key)
  {
    ToLowerIdempotent(key);
  }

  /** A key blocks as soon as "local" occurs anywhere in its lower-cased form. */
  lemma OccurrenceBlocks(key: string, i: int)
    requires OccursAt(ToLower(key), BlockedFragment, i)
    ensures Blocks(key)
  {
    ContainsIffOccurs(ToLower(key), BlockedFragment);
    ExemptionIsVacuous(key);
  }

  /** A key without the letter `l` in any case never blocks. */
  lemma NoLetterLNeverBlocks(key: string)
    requires forall i :: 0 <= i < |key| ==> key[i] != 'l' && key[i] != 'L'
    ensures !Blocks(key)
  {
    if Contains(ToLower(key), BlockedFragment) {
      ContainsFirstChar(ToLower(key), BlockedFragment);
    }
  }

  /** An authenticated requester always proceeds, whatever the repository keys. */
  lemma NonAnonymousProceeds(req: Request)
    requires !IsAnonymous(req.userContext)
    ensures Decide(req).status == PROCEED && Decide(req).message == AllowedMessage
  {
  }

  /** Without metadata the request proceeds even when anonymous, and no path is echoed. */
  lemma MissingMetadataProceeds(req: Request)
    requires req.metadata.None?
    ensures Decide(req) == Response(PROCEED, AllowedMessage, None)
  {
  }

  /** The decision in terms of the two keys of the request, without the candidate list. */
  lemma StopIffSomeKeyBlocks(req: Request)
    ensures Decide(req).status == STOP <==>
      && req.metadata.Some?
      && IsAnonymous(req.userContext)
      && (|| (KeyOf(req.metadata.value.repoPath).Some? && Blocks(req.metadata.value.repoPath.value.key))
          || (KeyOf(req.metadata.value.originalRepoPath).Some? && Blocks(req.metadata.value.originalRepoPath.value.key)))
  {
    if req.metadata.Some? {
      var meta := req.metadata.value;
      var keys := CollectRepoKeys(meta);
      if KeyOf(meta.repoPath).Some? && Blocks(meta.repoPath.value.key) {
        assert Blocks(keys[0]);
      }
      if KeyOf(meta.originalRepoPath).Some? && Blocks(meta.originalRepoPath.value.key) {
        assert Blocks(keys[|keys| - 1]);
      }
    }
  }

  /** A blocking requested key is the one the stop message names. */
  lemma RequestedKeyWins(req: Request)
    requires req.metadata.Some? && IsAnonymous(req.userContext)
    requires KeyOf(req.metadata.value.repoPath).Some? && Blocks(req.metadata.value.repoPath.value.key)
    ensures Decide(req).status == STOP
    ensures Decide(req).message == BlockedPrefix + req.metadata.value.repoPath.value.key
  {
  }

  /**
   * When the requested key is missing or does not block but the original
   * key of a virtual repository does, the stop message names the original key.
   */
  lemma OriginalKeyNamed(req: Request)
    requires req.metadata.Some? && IsAnonymous(req.userContext)
    requires KeyOf(req.metadata.value.repoPath).None? || !Blocks(req.metadata.value.repoPath.value.key)
    requires KeyOf(req.metadata.value.originalRepoPath).Some? && Blocks(req.metadata.value.originalRepoPath.value.key)
    ensures Decide(req).status == STOP
    ensures Decide(req).message == BlockedPrefix + req.metadata.value.originalRepoPath.value.key
  {
  }

  /** The key named in a stop message can be read back from it. */
  lemma BlockedMessageInjective(a: string, b: string)
    requires BlockedMessage(a) == BlockedMessage(b)
    ensures a == b
  {
    assert a == BlockedMessage(a)[|BlockedPrefix|..];
  }

  /** The three kinds of message are told apart by their text alone. */
  lemma MessagesAreDistinct(key: string, cause: string)
    ensures BlockedMessage(key) != AllowedMessage
    ensures ErrorMessage(cause) != AllowedMessage
    ensures BlockedMessage(key) != ErrorMessage(cause)
  {
    assert BlockedPrefix[0] == 'A';
    assert BlockedMessage(key)[0] == 'A';
    assert ErrorMessage(cause)[0] == ErrorPrefix[0] == 'E';
    assert AllowedMessage[0] == 'D';
  }
}
