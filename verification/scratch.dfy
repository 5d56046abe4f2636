/** The scratch directory `./temp` under which the script stages both the
    archive and the database dump. */
module Scratch {

  const Prefix: string := "./temp/"

  /** The path `./temp/<file>` that both `create_backup` and `pg_backup`
      build with an f-string. */
  function ScratchFile(file: string): (p: string)
    ensures |p| == |Prefix| + |file|
    ensures p[..|Prefix|] == Prefix && p[|Prefix|..] == file
  {
    Prefix + file
  }
}
