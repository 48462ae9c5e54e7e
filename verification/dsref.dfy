/** References to datasets and the summary of one version (dsref/ref.go, dsref/version_info.go). */
module DsRef {

  datatype Ref = Ref(initID: string, username: string, profileID: string, name: string, path: string)

  const EMPTY_REF := Ref("", "", "", "", "")

  datatype VersionInfo = VersionInfo(
    username: string, profileID: string, name: string, path: string,
    published: bool, bodySize: int, commitTime: int, commitTitle: string,
    runID: string, runStatus: string, runDuration: int)
}
