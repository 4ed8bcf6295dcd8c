/** One commit of the log: its hash string and its one-line message. */
module GitCommits {

  datatype GitCommit = GitCommit(hashString: string, message: string)
}
