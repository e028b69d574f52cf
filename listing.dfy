/** Module records and how one host's listing turns catalog lines and build-time
    lookups into them. The remote commands themselves are not modelled: their
    outputs are the parameters of `ListModules`. */
module Listing {
  import opened Text
  import opened BuildTime

  /** One entry of a host's module catalog. */
  datatype ModuleInfo = ModuleInfo(name: string, version: string, buildTime: DateTime, fullName: string)

  /** `parts = fullName.split('/')`, then `name = parts[0]` and `version = parts[1]`
      when there are at least two parts; otherwise the whole string is the name and
      the version is `unknown`. */
  function SplitFullName(fullName: string): (nv: (string, string))
    ensures '/' !in fullName ==> nv == (fullName, "unknown")
    ensures '/' in fullName ==> '/' !in nv.0 && '/' !in nv.1
    ensures '/' in fullName ==> |nv.0| + 1 + |nv.1| <= |fullName|
    ensures '/' in fullName ==> fullName[..|nv.0| + 1] == nv.0 + "/"
    ensures '/' in fullName ==> fullName[|nv.0| + 1..][..|nv.1|] == nv.1
    ensures '/' in fullName ==> |nv.0| + 1 + |nv.1| == |fullName| || fullName[|nv.0| + 1 + |nv.1|] == '/'
  {
    var i := Find(fullName, '/');
    if i == |fullName| then (fullName, "unknown")
    else
      var rest := fullName[i + 1..];
      (fullName[..i], BeforeFirst(rest, '/'))
  }

  /** A name and a version joined by `/`, with any further `/`-separated segments,
      split back into that name and that version. */
  lemma SplitJoin(name: string, version: string, tail: string)
    requires '/' !in name && '/' !in version
    ensures SplitFullName(name + "/" + version) == (name, version)
    ensures SplitFullName(name + "/" + version + "/" + tail) == (name, version)
  {
    var s1 := name + "/" + version;
    var s2 := name + "/" + version + "/" + tail;
    assert s1 == name + ['/'] + version;
    assert s2 == name + ['/'] + (version + "/" + tail);
    BeforeFirstOfJoin(name, '/', version);
    BeforeFirstOfJoin(name, '/', version + "/" + tail);
    assert s1[|name| + 1..] == version;
    assert s2[|name| + 1..] == version + ['/'] + tail;
    assert BeforeFirst(version, '/') == version[..|version|] == version;
    BeforeFirstOfJoin(version, '/', tail);
  }

  /** The record built for one catalog line and its build-time lookup. */
  function MakeModule(fullName: string, buildTimeText: string): (m: ModuleInfo)
    ensures m.fullName == fullName
    ensures (m.name, m.version) == SplitFullName(fullName)
    ensures m.buildTime == DecodeBuildTime(buildTimeText) && Valid(m.buildTime)
  {
    var nv := SplitFullName(fullName);
    ModuleInfo(nv.0, nv.1, DecodeBuildTime(buildTimeText), fullName)
  }

  /** `get_modules_list` after its remote commands have run: `catalogLines` is the
      filtered output of the catalog listing and `statOutputs[k]` the raw output of
      the build-time lookup for line `k`. One record per line, in catalog order. */
  method ListModules(catalogLines: seq<string>, statOutputs: seq<string>) returns (modules: seq<ModuleInfo>)
    requires |statOutputs| == |catalogLines|
    ensures |modules| == |catalogLines|
    ensures forall k :: 0 <= k < |modules| ==>
              modules[k] == MakeModule(Strip(catalogLines[k]), Strip(statOutputs[k]))
  {
    modules := [];
    for k := 0 to |catalogLines|
      invariant |modules| == k
      invariant forall j :: 0 <= j < k ==> modules[j] == MakeModule(Strip(catalogLines[j]), Strip(statOutputs[j]))
    {
      var fullName := Strip(catalogLines[k]);
      var buildTimeText := Strip(statOutputs[k]);
      var m := MakeModule(fullName, buildTimeText);
      modules := modules + [m];
      assert modules[k] == m;
    }
  }
}
