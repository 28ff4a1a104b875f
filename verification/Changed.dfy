/** Which packages a change affects: dependency closure by a loop that repeats
    until nothing is added (xtask/src/changed.rs:78-123, 185-259). */
module Changed {
  import opened Bytes

  type Graph = map<string, seq<string>>

  /** A path along dependency edges that ends in the set. */
  ghost predicate PathInto(graph: Graph, path: seq<string>, into: set<string>)
  {
    && path != [] && path[|path| - 1] in into
    && forall i :: 0 <= i < |path| - 1 ==> path[i] in graph && path[i + 1] in graph[path[i]]
  }

  ghost predicate Reaches(graph: Graph, n: string, into: set<string>)
  {
    exists path :: PathInto(graph, path, into) && path[0] == n
  }

  predicate DependsOn(deps: seq<string>, selected: set<string>)
  {
    exists i :: 0 <= i < |deps| && deps[i] in selected
  }

  /** Nothing outside the set depends on it. */
  ghost predicate Closed(graph: Graph, selected: set<string>)
  {
    forall n :: n in graph && DependsOn(graph[n], selected) ==> n in selected
  }

  lemma {:induction false} ClosedHoldsPath(graph: Graph, selected: set<string>, path: seq<string>, into: set<string>)
    requires Closed(graph, selected) && into <= selected && PathInto(graph, path, into)
    ensures path[0] in selected
    decreases |path|
  {
    if |path| > 1 {
      var rest := path[1..];
      assert forall i :: 0 <= i < |rest| ==> rest[i] == path[i + 1];
      ClosedHoldsPath(graph, selected, rest, into);
      assert path[0] in graph && path[1] in graph[path[0]];
      assert DependsOn(graph[path[0]], selected);
    }
  }

  lemma SeedReaches(graph: Graph, n: string, into: set<string>)
    requires n in into
    ensures Reaches(graph, n, into)
  {
    assert PathInto(graph, [n], into);
  }

  lemma DependentReaches(graph: Graph, n: string, selected: set<string>, into: set<string>)
    requires n in graph && DependsOn(graph[n], selected) && forall m :: m in selected ==> Reaches(graph, m, into)
    ensures Reaches(graph, n, into)
  {
    var i :| 0 <= i < |graph[n]| && graph[n][i] in selected;
    var path :| PathInto(graph, path, into) && path[0] == graph[n][i];
    var longer := [n] + path;
    assert forall k :: 0 <= k < |path| ==> longer[k + 1] == path[k];
    assert PathInto(graph, longer, into);
  }

  /** One pass over the packages, adding in place. */
  method Pass(graph: Graph, seeds: set<string>, start: set<string>) returns (selected: set<string>)
    requires seeds <= start <= seeds + graph.Keys && forall n :: n in start ==> Reaches(graph, n, seeds)
    ensures start <= selected <= seeds + graph.Keys && forall n :: n in selected ==> Reaches(graph, n, seeds)
    ensures forall n :: n in graph && DependsOn(graph[n], start) ==> n in selected
  {
    hide Reaches;
    selected := start;
    var todo := graph.Keys;
    while todo != {}
      invariant todo <= graph.Keys
      invariant start <= selected <= seeds + graph.Keys && forall n :: n in selected ==> Reaches(graph, n, seeds)
      invariant forall n :: n in graph.Keys - todo && DependsOn(graph[n], start) ==> n in selected
      decreases |todo|
    {
      var name :| name in todo;
      todo := todo - {name};
      var depends := AnySelected(graph[name], selected);
      if depends {
        DependentReaches(graph, name, selected, seeds);
        selected := selected + {name};
      }
    }
  }

  method AnySelected(deps: seq<string>, selected: set<string>) returns (any: bool)
    ensures any <==> DependsOn(deps, selected)
  {
    for i := 0 to |deps|
      invariant forall k :: 0 <= k < i ==> deps[k] !in selected
    {
      if deps[i] in selected { return true; }
    }
    any := false;
  }

  /** The loop ends with exactly what reaches a seed, on cyclic graphs too. */
  method Close(graph: Graph, seeds: set<string>) returns (selected: set<string>)
    ensures forall n :: n in selected <==> Reaches(graph, n, seeds)
  {
    hide DependsOn;
    selected := seeds;
    forall n | n in selected ensures Reaches(graph, n, seeds) { SeedReaches(graph, n, seeds); }
    var grew := true;
    while grew
      invariant seeds <= selected <= seeds + graph.Keys && forall n :: n in selected ==> Reaches(graph, n, seeds)
      invariant !grew ==> Closed(graph, selected)
      decreases |seeds + graph.Keys| - |selected|, grew
    {
      ghost var prior := selected;
      var before := |selected|;
      selected := Pass(graph, seeds, selected);
      grew := |selected| != before;
      SameSize(prior, selected);
      BoundedSize(selected, seeds + graph.Keys);
    }
    forall n | Reaches(graph, n, seeds) ensures n in selected {
      var path :| PathInto(graph, path, seeds) && path[0] == n;
      ClosedHoldsPath(graph, selected, path, seeds);
    }
  }

  lemma SameSize(a: set<string>, b: set<string>)
    requires a <= b
    ensures |a| <= |b| && (|a| == |b| ==> a == b)
  {
    assert b == a + (b - a);
    assert |b| == |a| + |b - a|;
  }

  lemma BoundedSize(a: set<string>, b: set<string>)
    requires a <= b
    ensures |a| <= |b|
  {
    SameSize(a, b);
  }

  // ---------- selecting packages ----------

  datatype Package = Package(root: string, dependencies: seq<string>)

  type Packages = map<string, Package>

  predicate StartsWith(file: string, prefix: string) { prefix <= file }

  predicate EndsWith(file: string, suffix: string)
  {
    |suffix| <= |file| && file[|file| - |suffix|..] == suffix
  }

  /** Files that can change anything. */
  predicate Global(file: string)
  {
    || StartsWith(file, "docs/spec/") || StartsWith(file, "docs/inventory/")
    || file == "Cargo.lock" || EndsWith(file, "Cargo.toml")
    || StartsWith(file, ".cargo/") || StartsWith(file, ".github/")
    || file == "rust-toolchain.toml" || file == "deny.toml" || file == "Cross.toml"
  }

  /** Files outside every package that change nothing. */
  predicate Inert(file: string)
  {
    || StartsWith(file, "docs/")
    || file in {"README.md", "CHANGELOG.md", "CLAUDE.md", "AGENTS.md", "LICENSE", "NOTICE"}
  }

  predicate Within(p: Package, file: string) { p.root == "" || StartsWith(file, p.root + "/") }

  /** A file somewhere below a directory. */
  ghost predicate Below(file: string, dir: string) { exists rest :: file == dir + "/" + rest }

  lemma BelowExactly(file: string, dir: string)
    ensures StartsWith(file, dir + "/") <==> Below(file, dir)
  {
    if StartsWith(file, dir + "/") { assert file == dir + "/" + file[|dir| + 1..]; }
  }

  /** What the names mean: specifications, the inventory, build settings and every
      manifest concern all packages; the rest of the documentation concerns none; a
      package holds what is below its directory. */
  lemma PathsExactly(p: Package, file: string)
    ensures Global(file) <==>
            || Below(file, "docs/spec") || Below(file, "docs/inventory")
            || Below(file, ".cargo") || Below(file, ".github")
            || file in ["Cargo.lock", "Cross.toml", "deny.toml", "rust-toolchain.toml"]
            || exists head :: file == head + "Cargo.toml"
    ensures Inert(file) <==>
            || Below(file, "docs")
            || file in ["AGENTS.md", "CHANGELOG.md", "CLAUDE.md", "LICENSE", "NOTICE", "README.md"]
    ensures Within(p, file) <==> p.root == "" || Below(file, p.root)
  {
    hide Below;
    BelowExactly(file, "docs/spec");
    BelowExactly(file, "docs/inventory");
    BelowExactly(file, ".cargo");
    BelowExactly(file, ".github");
    BelowExactly(file, "docs");
    BelowExactly(file, p.root);
    assert "docs/spec" + "/" == "docs/spec/" && "docs/inventory" + "/" == "docs/inventory/";
    assert ".cargo" + "/" == ".cargo/" && ".github" + "/" == ".github/" && "docs" + "/" == "docs/";
    ManifestExactly(file);
  }

  lemma ManifestExactly(file: string)
    ensures EndsWith(file, "Cargo.toml") <==> exists head :: file == head + "Cargo.toml"
  {
    if EndsWith(file, "Cargo.toml") { assert file == file[..|file| - 10] + "Cargo.toml"; }
  }

  /** The innermost package around a file. */
  ghost predicate Owns(packages: Packages, name: string, file: string)
  {
    && name in packages && Within(packages[name], file)
    && forall other :: other in packages && Within(packages[other], file) ==>
         |packages[other].root| <= |packages[name].root|
  }

  ghost predicate Homeless(packages: Packages, file: string)
  {
    forall name :: name in packages ==> !Within(packages[name], file)
  }

  /** Packages in different directories never share a file as innermost. */
  lemma OwnerUnique(packages: Packages, a: string, b: string, file: string)
    requires Owns(packages, a, file) && Owns(packages, b, file)
    ensures packages[a].root == packages[b].root
  {
    var x, y := packages[a].root, packages[b].root;
    if x != "" && y != "" {
      assert (x + "/")[..|x|] == x && (y + "/")[..|y|] == y;
      assert file[..|x|] == (x + "/")[..|x|] && file[..|y|] == (y + "/")[..|y|];
    }
  }

  method FindOwner(packages: Packages, file: string) returns (owner: Option<string>)
    ensures owner.Some? ==> Owns(packages, owner.value, file)
    ensures owner.None? <==> Homeless(packages, file)
  {
    hide Within;
    owner := None;
    var todo := packages.Keys;
    while todo != {}
      invariant todo <= packages.Keys
      invariant owner.None? ==> forall n :: n in packages.Keys - todo ==> !Within(packages[n], file)
      invariant owner.Some? ==>
                  && owner.value in packages && Within(packages[owner.value], file)
                  && forall n :: n in packages.Keys - todo && Within(packages[n], file) ==>
                       |packages[n].root| <= |packages[owner.value].root|
      decreases |todo|
    {
      var name :| name in todo;
      todo := todo - {name};
      if Within(packages[name], file) &&
         (owner.None? || |packages[owner.value].root| <= |packages[name].root|)
      {
        owner := Some(name);
      }
    }
  }

  function Edges(packages: Packages): Graph { map n | n in packages :: packages[n].dependencies }

  /** One file asks for every package. */
  ghost predicate AsksForAll(packages: Packages, file: string)
  {
    Global(file) || (Homeless(packages, file) && !Inert(file))
  }

  /** The packages the files belong to. */
  ghost predicate DirectlyChanged(packages: Packages, files: seq<string>, direct: set<string>)
  {
    && (forall n :: n in direct ==> exists i :: 0 <= i < |files| && Owns(packages, n, files[i]))
    && (forall i :: 0 <= i < |files| ==>
          Homeless(packages, files[i]) || exists n :: n in direct && Owns(packages, n, files[i]))
  }

  /** Every package when some file asks for all, else exactly those that reach
      a directly changed one along dependencies. */
  method Select(packages: Packages, files: seq<string>) returns (selected: set<string>, ghost direct: set<string>)
    ensures (exists i :: 0 <= i < |files| && AsksForAll(packages, files[i])) ==> selected == packages.Keys
    ensures !(exists i :: 0 <= i < |files| && AsksForAll(packages, files[i])) ==>
              && DirectlyChanged(packages, files, direct)
              && forall n :: n in selected <==> Reaches(Edges(packages), n, direct)
  {
    hide Global, Inert, Owns, Homeless, Reaches;
    direct := {};
    var changed: set<string> := {};
    assert files[..0] == [];
    for i := 0 to |files|
      invariant changed == direct && DirectlyChanged(packages, files[..i], direct)
      invariant forall k :: 0 <= k < i ==> !AsksForAll(packages, files[k])
    {
      assert files[..i + 1] == files[..i] + [files[i]];
      if Global(files[i]) {
        assert AsksForAll(packages, files[i]);
        return packages.Keys, direct;
      }
      var owner := FindOwner(packages, files[i]);
      if owner.Some? {
        DirectMore(packages, files[..i], direct, files[i], owner);
        changed := changed + {owner.value};
        direct := direct + {owner.value};
      } else {
        DirectMore(packages, files[..i], direct, files[i], owner);
        if !Inert(files[i]) {
          assert AsksForAll(packages, files[i]);
          return packages.Keys, direct;
        }
      }
    }
    assert files[..|files|] == files;
    selected := Close(Edges(packages), changed);
  }

  lemma DirectMore(packages: Packages, files: seq<string>, direct: set<string>, file: string, owner: Option<string>)
    requires DirectlyChanged(packages, files, direct)
    requires owner.Some? ==> Owns(packages, owner.value, file)
    requires owner.None? ==> Homeless(packages, file)
    ensures DirectlyChanged(packages, files + [file], if owner.Some? then direct + {owner.value} else direct)
  {
    hide Owns, Homeless;
    var more := files + [file];
    var after := if owner.Some? then direct + {owner.value} else direct;
    assert more[|files|] == file;
    forall n | n in after ensures exists i :: 0 <= i < |more| && Owns(packages, n, more[i]) {
      if n in direct {
        var i :| 0 <= i < |files| && Owns(packages, n, files[i]);
        assert Owns(packages, n, more[i]);
      } else {
        assert Owns(packages, n, more[|files|]);
      }
    }
    forall i | 0 <= i < |more|
      ensures Homeless(packages, more[i]) || exists n :: n in after && Owns(packages, n, more[i])
    {
      if i < |files| { assert more[i] == files[i]; }
    }
  }

  // ---------- packages that use the system's TLS library ----------

  predicate NodeComplete(names: map<string, string>, graph: Graph, id: string)
    requires id in graph
  {
    id in names && forall i :: 0 <= i < |graph[id]| ==> graph[id][i] in names && graph[id][i] in graph
  }

  /** Every node of the resolved graph is a package, and so is all it depends on. */
  ghost predicate Complete(names: map<string, string>, graph: Graph)
  {
    forall id :: id in graph ==> NodeComplete(names, graph, id)
  }

  method CheckComplete(names: map<string, string>, graph: Graph) returns (ok: bool)
    ensures ok <==> Complete(names, graph)
  {
    var todo := graph.Keys;
    while todo != {}
      invariant todo <= graph.Keys && forall id :: id in graph.Keys - todo ==> NodeComplete(names, graph, id)
      decreases |todo|
    {
      var id :| id in todo;
      if !NodeComplete(names, graph, id) { return false; }
      todo := todo - {id};
    }
    ok := true;
  }

  /** A package that reaches OpenSSL along resolved dependencies. */
  ghost predicate UsesOpenSsl(names: map<string, string>, graph: Graph, id: string)
  {
    exists path, end ::
      && PathInto(graph, path, {end}) && path[0] == id
      && (Named(names, end, "openssl") || Named(names, end, "openssl-sys"))
  }

  lemma UsesMeans(names: map<string, string>, graph: Graph, id: string, seeds: set<string>)
    requires forall x :: x in seeds <==> x in names && names[x] in {"openssl", "openssl-sys"}
    ensures Reaches(graph, id, seeds) <==> UsesOpenSsl(names, graph, id)
  {
    if path :| PathInto(graph, path, seeds) && path[0] == id {
      assert PathInto(graph, path, {path[|path| - 1]});
    }
    if path, end :|
      && PathInto(graph, path, {end}) && path[0] == id
      && (Named(names, end, "openssl") || Named(names, end, "openssl-sys"))
    {
      assert PathInto(graph, path, seeds);
    }
  }

  /** The system TLS users: what reaches OpenSSL in the resolved graph. */
  method SystemTls(names: map<string, string>, graph: Graph) returns (tls: set<string>)
    ensures forall id :: id in tls <==> UsesOpenSsl(names, graph, id)
  {
    var seeds := set id | id in names && names[id] in {"openssl", "openssl-sys"};
    tls := Close(graph, seeds);
    forall id ensures id in tls <==> UsesOpenSsl(names, graph, id) { UsesMeans(names, graph, id, seeds); }
  }

  /** The last member with its name; members of one name overwrite each other. */
  ghost predicate LastNamed(names: map<string, string>, members: seq<string>, i: nat)
  {
    && i < |members| && members[i] in names
    && forall j :: i < j < |members| && members[j] in names ==> names[members[j]] != names[members[i]]
  }

  lemma LastBefore(names: map<string, string>, members: seq<string>, i: nat, k: nat)
    requires i < |members| && members[i] in names && LastNamed(names, members[..i + 1], k)
    ensures k == i || (LastNamed(names, members[..i], k) && names[members[k]] != names[members[i]])
  {
    var longer, shorter := members[..i + 1], members[..i];
    assert longer[i] == members[i] && longer[k] == members[k];
    assert forall j :: 0 <= j < i ==> shorter[j] == longer[j];
  }

  /** Which workspace packages are built for musl: those that do not reach OpenSSL.
      Nothing is said of a graph that is not complete or lacks a member. */
  method MuslSelection(names: map<string, string>, graph: Graph, members: seq<string>)
    returns (r: Option<map<string, bool>>)
    ensures r.Some? <==> Complete(names, graph) && forall i :: 0 <= i < |members| ==> members[i] in graph
    ensures r.Some? ==>
              && (forall n :: n in r.value <==> exists i :: 0 <= i < |members| && Named(names, members[i], n))
              && forall i: nat :: LastNamed(names, members, i) ==>
                   names[members[i]] in r.value
                   && (r.value[names[members[i]]] <==> !UsesOpenSsl(names, graph, members[i]))
  {
    hide UsesOpenSsl;
    var complete := CheckComplete(names, graph);
    if !complete { return None; }
    var tls := SystemTls(names, graph);
    var built: map<string, bool> := map[];
    for i := 0 to |members|
      invariant forall k :: 0 <= k < i ==> members[k] in graph
      invariant forall n :: n in built <==> exists k :: 0 <= k < i && Named(names, members[k], n)
      invariant forall k: nat :: LastNamed(names, members[..i], k) ==>
                  names[members[k]] in built
                  && (built[names[members[k]]] <==> !UsesOpenSsl(names, graph, members[k]))
    {
      if members[i] !in graph { return None; }
      assert NodeComplete(names, graph, members[i]);
      built := built[names[members[i]] := members[i] !in tls];
      forall k: nat | LastNamed(names, members[..i + 1], k)
        ensures k == i || (LastNamed(names, members[..i], k) && names[members[k]] != names[members[i]])
      {
        LastBefore(names, members, i, k);
      }
    }
    assert members[..|members|] == members;
    r := Some(built);
  }

  predicate Named(names: map<string, string>, id: string, name: string) { id in names && names[id] == name }
}
