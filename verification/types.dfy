/**
 * The parts of the download hook's request and response records that the
 * access decision reads or writes. Fields the decision never consults are
 * not represented.
 */
module Types {
  import opened Options

  /** Who sends the download request. */
  datatype UserContext = UserContext(id: string, isToken: bool, realm: string)

  /** A repository path: the repository key plus the path inside it. */
  datatype RepoPath = RepoPath(key: string, path: string, id: string, isRoot: bool, isFolder: bool)

  /**
   * Download metadata. `originalRepoPath` is set when the requested
   * repository is virtual and resolves to a backing repository.
   */
  datatype DownloadMetadata = DownloadMetadata(repoPath: Option<RepoPath>, originalRepoPath: Option<RepoPath>)

  /** The hook's input. */
  datatype Request = Request(metadata: Option<DownloadMetadata>, userContext: Option<UserContext>)

  /** What the host does with the download. */
  datatype ActionStatus = PROCEED | STOP

  /** The hook's output. */
  datatype Response = Response(status: ActionStatus, message: string, modifiedRepoPath: Option<RepoPath>)
}
