/** The dependency configuration of the development CLI and its two graphs. */
module Dependencies {
  import opened Digraph

  /** One entry of a module's build section: the dependency, and whether its type is 'run'. */
  datatype BuildDep = BuildDep(name: Node, runs: bool)

  datatype ModuleDeps = ModuleDeps(build: seq<BuildDep>, run: seq<Node>)

  datatype Config = Config(modules: seq<Node>, deps: map<Node, ModuleDeps>) {
    ghost predicate Valid() {
      forall m :: m in modules <==> m in deps
    }
  }

  datatype Kind = Run | Build

  function Names(build: seq<BuildDep>): (r: seq<Node>)
    ensures forall n :: n in r <==> exists d :: d in build && d.name == n
  {
    if build == [] then []
    else
      assert build == [build[0]] + build[1..];
      [build[0].name] + Names(build[1..])
  }

  function RunNames(build: seq<BuildDep>): (r: seq<Node>)
    ensures forall n :: n in r <==> exists d :: d in build && d.name == n && d.runs
  {
    if build == [] then []
    else
      assert build == [build[0]] + build[1..];
      (if build[0].runs then [build[0].name] else []) + RunNames(build[1..])
  }

  function GetDirectRunDeps(c: Config, m: Node): seq<Node> {
    if m in c.deps then c.deps[m].run else []
  }

  function GetBuildDeps(c: Config, m: Node): seq<Node> {
    if m in c.deps then Names(c.deps[m].build) else []
  }

  function GetBuildRunDeps(c: Config, m: Node): seq<Node> {
    if m in c.deps then RunNames(c.deps[m].build) else []
  }

  function GetAdjacency(c: Config, kind: Kind): (g: Graph)
    ensures c.Valid() ==> g.Valid()
    ensures g.out.Keys == c.deps.Keys
    ensures forall m {:trigger g.Succ(m)} :: g.Succ(m) == if kind == Run then GetDirectRunDeps(c, m) else GetBuildDeps(c, m)
  {
    Graph(c.modules, map m | m in c.deps :: if kind == Run then c.deps[m].run else Names(c.deps[m].build))
  }
}
