/** The file-system state the downloader works on: bytes, the remote directory,
    the local staging directory and the library tree. */
module Files {

  type byte = bv8

  /** The remote directory (what SFTP lists and serves): file name to contents. */
  type RemoteDir = map<string, seq<byte>>

  /** An entry of the local staging directory. */
  datatype Entry = File(data: seq<byte>) | Directory

  /** The local staging directory: entry name to entry. */
  type StagingDir = map<string, Entry>

  /** A file of the library tree: a media container or a text file (the
      extracted subtitles, the rule file, the ledger). */
  datatype Node = Media(bytes: seq<byte>) | TextFile(text: string)

  /** The library tree: full path to file. Directories are implicit. */
  type Library = map<string, Node>

  /** The concatenation of a sequence of byte strings, in order. */
  function Flatten(parts: seq<seq<byte>>): seq<byte>
  {
    if |parts| == 0 then [] else Flatten(parts[..|parts| - 1]) + parts[|parts| - 1]
  }

  /** Concatenating is additive in the lengths. */
  lemma {:induction false} FlattenLength(parts: seq<seq<byte>>)
    ensures |Flatten(parts)| == SumLengths(parts)
  {
    if |parts| > 0 {
      FlattenLength(parts[..|parts| - 1]);
    }
  }

  function SumLengths(parts: seq<seq<byte>>): nat
  {
    if |parts| == 0 then 0 else SumLengths(parts[..|parts| - 1]) + |parts[|parts| - 1]|
  }
}
