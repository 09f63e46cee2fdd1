/** Go's path/filepath.Join and Clean on a Unix host ('/' separator). Join
    joins the non-empty elements with '/' and cleans the result; Clean is
    modelled by splitting at '/', resolving the elements ("", "." and ".."),
    and joining what remains back with '/'. */
module FilePath {
  import GoStrings

  /** strings.Split(s, "/"): the pieces between separators; never empty. */
  function Split(s: string): (r: seq<string>)
    ensures |r| >= 1
    decreases |s|
  {
    if |s| == 0 then [""]
    else
      var rest := Split(s[1..]);
      if s[0] == '/' then [""] + rest
      else [[s[0]] + rest[0]] + rest[1..]
  }

  /** No element of a path's split holds a separator. */
  predicate NoSeparators(parts: seq<string>)
  {
    forall k :: 0 <= k < |parts| ==> '/' !in parts[k]
  }

  /** Path elements that are all proper names without a separator. */
  predicate ProperNames(names: seq<string>)
  {
    NoSeparators(names) && forall k :: 0 <= k < |names| ==> IsName(names[k])
  }

  lemma {:induction false} SplitParts(s: string)
    ensures NoSeparators(Split(s))
    decreases |s|
  {
    if |s| > 0 {
      SplitParts(s[1..]);
      var rest := Split(s[1..]);
      if s[0] != '/' {
        var first := [s[0]] + rest[0];
        assert '/' !in first by {
          assert '/' !in rest[0];
          assert forall j :: 1 <= j < |first| ==> first[j] == rest[0][j - 1];
        }
        var r := [first] + rest[1..];
        assert forall k :: 1 <= k < |r| ==> r[k] == rest[k];
      } else {
        var r := [""] + rest;
        assert forall k :: 1 <= k < |r| ==> r[k] == rest[k - 1];
      }
    }
  }

  /** strings.Join(parts, "/"). */
  function JoinSlash(parts: seq<string>): string
  {
    if |parts| == 0 then ""
    else if |parts| == 1 then parts[0]
    else parts[0] + "/" + JoinSlash(parts[1..])
  }

  function Last(parts: seq<string>): string
    requires |parts| > 0
  {
    parts[|parts| - 1]
  }

  /** A path element that Clean keeps as it is. */
  predicate IsName(e: string)
  {
    e != "" && e != "." && e != ".."
  }

  /** The element stack Clean builds: empty and "." elements vanish, ".." removes
      the previous name, and a ".." with nothing to remove is dropped in a rooted
      path and kept in a relative one. */
  function Resolve(rooted: bool, stack: seq<string>, parts: seq<string>): seq<string>
    decreases |parts|
  {
    if |parts| == 0 then stack
    else
      var e := parts[0];
      if e == "" || e == "." then Resolve(rooted, stack, parts[1..])
      else if e == ".." then
        if |stack| > 0 && Last(stack) != ".." then Resolve(rooted, stack[..|stack| - 1], parts[1..])
        else if rooted then Resolve(rooted, stack, parts[1..])
        else Resolve(rooted, stack + [".."], parts[1..])
      else Resolve(rooted, stack + [e], parts[1..])
  }

  /** filepath.Clean. */
  function Clean(p: string): string
  {
    if p == "" then "."
    else
      var rooted := p[0] == '/';
      var stack := Resolve(rooted, [], Split(p));
      if rooted then "/" + JoinSlash(stack)
      else if stack == [] then "."
      else JoinSlash(stack)
  }

  /** filepath.Join(dir, name): the two joined by a separator and cleaned;
      empty arguments are ignored. */
  function Join(dir: string, name: string): string
  {
    if dir == "" then (if name == "" then "" else Clean(name))
    else Clean(dir + "/" + name)
  }

  lemma {:induction false} SplitNoSlash(s: string)
    requires '/' !in s
    ensures Split(s) == [s]
    decreases |s|
  {
    if |s| > 0 {
      SplitNoSlash(s[1..]);
      assert [s[0]] + s[1..] == s;
    }
  }

  /** Splitting at a separator splits each side on its own. */
  lemma {:induction false} SplitAtSlash(a: string, b: string)
    ensures Split(a + "/" + b) == Split(a) + Split(b)
    decreases |a|
  {
    if |a| == 0 {
      assert a + "/" + b == "/" + b;
      assert ("/" + b)[1..] == b;
    } else {
      var s, t := a + "/" + b, a[1..];
      assert s[0] == a[0] && s[1..] == t + "/" + b;
      SplitAtSlash(t, b);
      var st, sb := Split(t), Split(b);
      if a[0] == '/' {
        assert Split(s) == [""] + (st + sb);
        assert Split(a) == [""] + st;
        GoStrings.SeqAssoc([""], st, sb);
      } else {
        var head := [[a[0]] + st[0]];
        assert (st + sb)[0] == st[0] && (st + sb)[1..] == st[1..] + sb;
        assert Split(s) == head + (st[1..] + sb);
        assert Split(a) == head + st[1..];
        GoStrings.SeqAssoc(head, st[1..], sb);
      }
    }
  }

  /** Split undoes JoinSlash whenever no part holds a separator. */
  lemma {:induction false} SplitJoin(parts: seq<string>)
    requires |parts| > 0
    requires NoSeparators(parts)
    ensures Split(JoinSlash(parts)) == parts
    decreases |parts|
  {
    if |parts| == 1 {
      SplitNoSlash(parts[0]);
    } else {
      var head, tail := parts[0], parts[1..];
      assert JoinSlash(parts) == head + "/" + JoinSlash(tail);
      SplitJoin(tail);
      SplitAtSlash(head, JoinSlash(tail));
      SplitNoSlash(head);
      assert [head] + tail == parts;
    }
  }

  /** `b` is `a` with `d` appended to its last element. */
  predicate ExtendsLast(a: seq<string>, b: seq<string>, d: string)
  {
    && |a| > 0 && |b| == |a|
    && b[..|a| - 1] == a[..|a| - 1]
    && Last(b) == Last(a) + d
  }

  lemma ExtendsLastCons(e: string, a: seq<string>, b: seq<string>, d: string)
    requires ExtendsLast(a, b, d)
    ensures ExtendsLast([e] + a, [e] + b, d)
  {
    assert ([e] + b)[..|a|] == [e] + b[..|a| - 1];
    assert ([e] + a)[..|a|] == [e] + a[..|a| - 1];
  }

  lemma ExtendsLastHead(c: char, a: seq<string>, b: seq<string>, d: string)
    requires ExtendsLast(a, b, d)
    ensures ExtendsLast([[c] + a[0]] + a[1..], [[c] + b[0]] + b[1..], d)
  {
    var a', b' := [[c] + a[0]] + a[1..], [[c] + b[0]] + b[1..];
    if |a| == 1 {
      assert b[0] == a[0] + d;
      assert Last(b') == [c] + (a[0] + d) == ([c] + a[0]) + d;
    } else {
      assert b[0] == b[..|a| - 1][0] == a[0];
      assert b'[..|a| - 1] == [[c] + a[0]] + b[1..|a| - 1];
      assert a'[..|a| - 1] == [[c] + a[0]] + a[1..|a| - 1];
      assert b[1..|a| - 1] == b[..|a| - 1][1..];
      assert a[1..|a| - 1] == a[..|a| - 1][1..];
    }
  }

  /** Text without separators glued onto a path extends its last element and
      leaves the others alone. */
  lemma {:induction false} SplitAppendName(x: string, d: string)
    requires '/' !in d
    ensures ExtendsLast(Split(x), Split(x + d), d)
    decreases |x|
  {
    if |x| == 0 {
      assert x + d == d;
      SplitNoSlash(d);
      assert "" + d == d;
    } else {
      var t := x[1..];
      assert (x + d)[0] == x[0] && (x + d)[1..] == t + d;
      SplitAppendName(t, d);
      if x[0] == '/' {
        ExtendsLastCons("", Split(t), Split(t + d), d);
      } else {
        ExtendsLastHead(x[0], Split(t), Split(t + d), d);
      }
    }
  }

  /** Clean's stack only ever holds elements of the path. */
  lemma {:induction false} ResolveParts(rooted: bool, stack: seq<string>, parts: seq<string>)
    requires NoSeparators(stack) && NoSeparators(parts)
    ensures NoSeparators(Resolve(rooted, stack, parts))
    decreases |parts|
  {
    if |parts| > 0 {
      var e, rest := parts[0], parts[1..];
      assert NoSeparators(rest) by {
        assert forall k :: 0 <= k < |rest| ==> rest[k] == parts[k + 1];
      }
      if e == "" || e == "." {
        ResolveParts(rooted, stack, rest);
      } else if e == ".." {
        if |stack| > 0 && Last(stack) != ".." {
          ResolveParts(rooted, stack[..|stack| - 1], rest);
        } else if rooted {
          ResolveParts(rooted, stack, rest);
        } else {
          ResolveParts(rooted, stack + [".."], rest);
        }
      } else {
        ResolveParts(rooted, stack + [e], rest);
      }
    }
  }

  /** A name at the end of the elements survives cleaning as the last element. */
  lemma {:induction false} ResolveKeepsLastName(rooted: bool, stack: seq<string>, parts: seq<string>)
    requires |parts| > 0 && IsName(Last(parts))
    ensures |Resolve(rooted, stack, parts)| > 0
    ensures Last(Resolve(rooted, stack, parts)) == Last(parts)
    decreases |parts|
  {
    if |parts| > 1 {
      var e := parts[0];
      assert Last(parts[1..]) == Last(parts);
      if e == "" || e == "." {
        ResolveKeepsLastName(rooted, stack, parts[1..]);
      } else if e == ".." {
        if |stack| > 0 && Last(stack) != ".." {
          ResolveKeepsLastName(rooted, stack[..|stack| - 1], parts[1..]);
        } else if rooted {
          ResolveKeepsLastName(rooted, stack, parts[1..]);
        } else {
          ResolveKeepsLastName(rooted, stack + [".."], parts[1..]);
        }
      } else {
        ResolveKeepsLastName(rooted, stack + [e], parts[1..]);
      }
    }
  }

  /** Joining under an absolute directory keeps the last element of the name
      whenever that element is a proper name, whatever the rest of the name holds. */
  lemma JoinKeepsLastName(dir: string, name: string)
    requires |dir| > 0 && dir[0] == '/'
    requires IsName(Last(Split(name)))
    ensures Last(Split(Join(dir, name))) == Last(Split(name))
  {
    var p := dir + "/" + name;
    SplitAtSlash(dir, name);
    var parts := Split(p);
    assert parts == Split(dir) + Split(name);
    assert Last(parts) == Last(Split(name));
    assert p != "" && p[0] == '/';
    var stack := Resolve(true, [], parts);
    ResolveKeepsLastName(true, [], parts);
    SplitParts(p);
    ResolveParts(true, [], parts);
    assert Join(dir, name) == Clean(p) == "/" + JoinSlash(stack);
    SplitRooted(stack);
    assert Last([""] + stack) == Last(stack);
  }

  /** A rooted path splits into an empty first element and its names. */
  lemma SplitRooted(stack: seq<string>)
    requires |stack| > 0
    requires NoSeparators(stack)
    ensures Split("/" + JoinSlash(stack)) == [""] + stack
  {
    var parts := [""] + stack;
    assert JoinSlash(parts) == "/" + JoinSlash(stack) by {
      assert |parts| > 1 && parts[0] == "" && parts[1..] == stack;
      assert JoinSlash(parts) == "" + "/" + JoinSlash(stack);
      assert "" + "/" + JoinSlash(stack) == "/" + JoinSlash(stack);
    }
    assert forall k :: 0 <= k < |parts| ==> '/' !in parts[k] by {
      forall k | 0 <= k < |parts|
        ensures '/' !in parts[k]
      {
        if k > 0 {
          assert parts[k] == stack[k - 1];
        }
      }
    }
    SplitJoin(parts);
  }

  /** Proper names pass through Clean's stack unchanged. */
  lemma {:induction false} ResolveNames(rooted: bool, stack: seq<string>, names: seq<string>)
    requires forall k :: 0 <= k < |names| ==> IsName(names[k])
    ensures Resolve(rooted, stack, names) == stack + names
    decreases |names|
  {
    if |names| == 0 {
      assert stack + names == stack;
    } else {
      ResolveNames(rooted, stack + [names[0]], names[1..]);
      assert stack + [names[0]] + names[1..] == stack + names;
    }
  }

  lemma {:induction false} JoinSlashSnoc(parts: seq<string>, e: string)
    requires |parts| > 0
    ensures JoinSlash(parts + [e]) == JoinSlash(parts) + "/" + e
    decreases |parts|
  {
    if |parts| > 1 {
      JoinSlashSnoc(parts[1..], e);
      assert (parts + [e])[1..] == parts[1..] + [e];
    }
  }

  /** An absolute path made only of proper names is already clean. */
  lemma CleanRootedNames(names: seq<string>)
    requires |names| > 0
    requires ProperNames(names)
    ensures Clean("/" + JoinSlash(names)) == "/" + JoinSlash(names)
  {
    var p := "/" + JoinSlash(names);
    SplitRooted(names);
    assert p != "" && p[0] == '/';
    var parts := [""] + names;
    assert parts[0] == "" && parts[1..] == names;
    assert Resolve(true, [], parts) == Resolve(true, [], names);
    ResolveNames(true, [], names);
    assert [] + names == names;
  }

  /** Joining a proper name under a directory that is already clean and
      absolute is plain concatenation with a separator. */
  lemma JoinCleanDir(dirNames: seq<string>, name: string)
    requires |dirNames| > 0
    requires ProperNames(dirNames)
    requires '/' !in name && IsName(name)
    ensures Join("/" + JoinSlash(dirNames), name) == "/" + JoinSlash(dirNames) + "/" + name
  {
    var j := JoinSlash(dirNames);
    var names := dirNames + [name];
    NamesSnoc(dirNames, name);
    JoinSlashSnoc(dirNames, name);
    assert JoinSlash(names) == j + "/" + name;
    CleanRootedNames(names);
    GoStrings.SeqAssoc("/", j + "/", name);
    GoStrings.SeqAssoc("/", j, "/");
    assert "/" + JoinSlash(names) == "/" + j + "/" + name;
    assert "/" + j != "";
  }

  lemma NamesSnoc(dirNames: seq<string>, name: string)
    requires ProperNames(dirNames)
    requires '/' !in name && IsName(name)
    ensures ProperNames(dirNames + [name])
  {
    var names := dirNames + [name];
    forall k | 0 <= k < |names|
      ensures '/' !in names[k] && IsName(names[k])
    {
      if k < |dirNames| {
        assert names[k] == dirNames[k];
      } else {
        assert names[k] == name;
      }
    }
  }

  /** The device directory iSCSI paths are built under. */
  lemma JoinPlainName(name: string)
    requires '/' !in name && IsName(name)
    ensures Join("/dev/disk/by-path", name) == "/dev/disk/by-path" + "/" + name
  {
    var dirNames := ["dev", "disk", "by-path"];
    DeviceDirNames();
    NamesOfDeviceDir();
    JoinCleanDir(dirNames, name);
  }

  lemma DeviceDirNames()
    ensures "/" + JoinSlash(["dev", "disk", "by-path"]) == "/dev/disk/by-path"
  {
    var dirNames := ["dev", "disk", "by-path"];
    assert JoinSlash(dirNames[1..]) == "disk/by-path" by {
      assert dirNames[1..][1..] == ["by-path"];
      assert "disk" + "/" + "by-path" == "disk/by-path";
    }
    assert "/" + ("dev" + "/" + "disk/by-path") == "/dev/disk/by-path";
  }

  lemma NamesOfDeviceDir()
    ensures ProperNames(["dev", "disk", "by-path"])
  {
  }
}
