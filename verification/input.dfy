/** The candidate addresses main hands to get_records. */
module Input {
  import opened Common

  /** `--ip <addr>`, or the IPv4-shaped substrings the extraction pattern found in the
      `--file` text, in order of appearance. */
  datatype Source = SingleAddress(ip: string) | FileMatches(matches: seq<string>)

  /** `--ip ""` is falsy, so main takes the file branch although no file was given and
      fails there. */
  datatype InputError = NoSource

  /** `matches[:limit]`, where a limit below 1 stands for no limit. */
  function Truncate(matches: seq<string>, limit: int): (r: seq<string>)
    ensures r <= matches
    ensures |r| == if limit < 1 then |matches| else Min(limit, |matches|)
  {
    if limit < 1 then matches else matches[..Min(limit, |matches|)]
  }

  /** A limit of 0 drops nothing. For limits of 1 or more, nothing is dropped exactly
      when the limit is at least the number of matches, and a larger limit never yields
      fewer candidates. */
  lemma TruncateProperties(matches: seq<string>, limit: int, larger: int)
    requires 1 <= limit <= larger
    ensures Truncate(matches, 0) == matches
    ensures Truncate(matches, limit) == matches <==> limit >= |matches|
    ensures Truncate(matches, limit) <= Truncate(matches, larger)
  {
  }

  /** The candidate list: the single address (the limit does not apply to it), or the
      file's matches cut to the limit. */
  function Candidates(src: Source, limit: int): (r: Result<seq<string>, InputError>)
    ensures r.Failure? <==> src == SingleAddress("")
    ensures src.SingleAddress? && r.Success? ==> r.value == [src.ip]
    ensures src.FileMatches? && r.Success? ==>
      r.value <= src.matches && (limit < 1 ==> r.value == src.matches)
      && (limit >= 1 ==> |r.value| == Min(limit, |src.matches|))
  {
    match src
    case SingleAddress(ip) => if ip == "" then Failure(NoSource) else Success([ip])
    case FileMatches(matches) => Success(Truncate(matches, limit))
  }
}
