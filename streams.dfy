/**
 * The driver's stream openers (`OpenInputFile` and `OpenOutputFile` in
 * tools/bro.cc) as decisions over an abstract file system. A path is an
 * opaque string; the file system records which paths exist and which have
 * been opened for writing (and so lost their previous contents). Whether an
 * `fopen` that the file system allows actually succeeds is not visible to the
 * driver and comes in as a boolean.
 */
module Streams {
  import opened Wrappers

  datatype Disk = Disk(existing: set<string>, truncated: set<string>)

  /**
   * Why a run stops before it has done all its iterations. The last one is
   * not reported by the driver: it marks the point where an iteration after
   * the first would use a standard stream that the previous iteration closed,
   * which C leaves undefined; the model stops the run there.
   */
  datatype Fault =
    | InputOpenFailed | OutputExists | OutputOpenFailed | CorruptInput | CompressionFailed | CloseFailed
    | StandardStreamReused

  datatype Opened = Opened(disk: Disk) | Refused(fault: Fault)

  /**
   * Opening the input: no path means standard input, which the driver
   * returns without a check; a path can be read only if it exists and
   * `fopen` succeeds. Reading changes nothing on disk.
   */
  function OpenInputFile(inputPath: Option<string>, disk: Disk, fopenSucceeds: bool): (r: Opened)
    ensures r.Opened? <==> inputPath.None? || (inputPath.value in disk.existing && fopenSucceeds)
    ensures r.Opened? ==> r.disk == disk
    ensures r.Refused? ==> r.fault == InputOpenFailed
  {
    match inputPath
    case None => Opened(disk)
    case Some(p) => if p in disk.existing && fopenSucceeds then Opened(disk) else Refused(InputOpenFailed)
  }

  /**
   * Opening the output: no path means standard output. Otherwise, unless
   * forced, an existing path is refused before anything is written; an
   * open for writing creates or truncates the file.
   */
  function OpenOutputFile(outputPath: Option<string>, force: bool, disk: Disk, fopenSucceeds: bool): (r: Opened)
    ensures outputPath.None? ==> r == Opened(disk)
    ensures r.Opened? <==> outputPath.None? || ((force || outputPath.value !in disk.existing) && fopenSucceeds)
    ensures r.Refused? ==> r.fault == OutputExists || r.fault == OutputOpenFailed
    ensures r.Refused? && r.fault == OutputExists <==>
      outputPath.Some? && !force && outputPath.value in disk.existing
    ensures r.Opened? ==> r.disk.existing == disk.existing + Touched(outputPath)
    ensures r.Opened? ==> r.disk.truncated == disk.truncated + Touched(outputPath)
  {
    match outputPath
    case None => Opened(disk)
    case Some(p) =>
      if !force && p in disk.existing then Refused(OutputExists)
      else if fopenSucceeds then Opened(Disk(disk.existing + {p}, disk.truncated + {p}))
      else Refused(OutputOpenFailed)
  }

  /**
   * Opening the output never makes an input that could be opened unreadable:
   * it only adds the output path to the file system.
   */
  lemma InputSurvivesOutputOpen(inputPath: Option<string>, outputPath: Option<string>, force: bool, disk: Disk,
                                readable: bool, writable: bool)
    requires OpenInputFile(inputPath, disk, readable).Opened?
    requires OpenOutputFile(outputPath, force, disk, writable).Opened?
    ensures OpenInputFile(inputPath, OpenOutputFile(outputPath, force, disk, writable).disk, readable).Opened?
  {
  }

  /** The paths an operation on `path` may change: none for a standard stream. */
  function Touched(path: Option<string>): set<string> {
    match path
    case None => {}
    case Some(p) => {p}
  }

  /** Removing the output after a failed compression; standard output is left alone. */
  function Unlink(disk: Disk, path: Option<string>): (d: Disk)
    ensures d.existing == disk.existing - Touched(path)
    ensures d.truncated == disk.truncated
  {
    match path
    case None => disk
    case Some(p) => disk.(existing := disk.existing - {p})
  }
}
