/** Stages as the graph code and the reproduction engine see them. */
module Stages {
  import opened Common
  import opened Paths

  /** A declared output; `useCache` is false for outputs declared with -O. */
  datatype Out = Out(path: Path, useCache: bool)

  /** `deps` holds None for a dependency on another repository, which has no path here. */
  datatype Stage = Stage(
    name: string,
    path: Path,
    cmd: Option<string>,
    frozen: bool,
    alwaysChanged: bool,
    deps: seq<Option<Path>>,
    outs: seq<Out>)

  function DepPaths(s: Stage): set<Path> {
    set d | d in s.deps && d.Some? :: d.value
  }

  function OutPaths(s: Stage): set<Path> {
    set o | o in s.outs :: o.path
  }

  /** Some dependency of `s` and some output of `t` overlap. */
  ghost predicate DependsOn(s: Stage, t: Stage) {
    exists d, o :: d in DepPaths(s) && o in OutPaths(t) && Overlaps(d, o)
  }
}
