/**
 * fs::get_parent_dir_view of core/Utilities/File.cpp, on systems whose only delimiter is '/'. The
 * code works from the right end of the path and counts components still to be removed; the module
 * proves that this agrees with resolving "." and ".." from the left and then dropping components.
 */
module ParentPath {

  // ----- What a path means -----

  predicate NoDelimiter(s: string) {
    forall i :: 0 <= i < |s| ==> s[i] != '/'
  }

  predicate IsName(s: string) {
    s != "" && NoDelimiter(s)
  }

  /** Length of the leading part without a delimiter. */
  function NameLength(s: string): (n: nat)
    ensures n <= |s| && (forall i :: 0 <= i < n ==> s[i] != '/') && (n < |s| ==> s[n] == '/')
  {
    if s == "" || s[0] == '/' then 0
    else
      var n := NameLength(s[1..]);
      assert forall i :: 0 < i < n + 1 ==> s[i] == s[1..][i - 1];
      n + 1
  }

  /** The components of a path, from left to right; repeated delimiters count once. */
  function Split(s: string): seq<string>
    decreases |s|
  {
    if s == "" then []
    else if s[0] == '/' then Split(s[1..])
    else [s[..NameLength(s)]] + Split(s[NameLength(s)..])
  }

  function DropLast<A>(s: seq<A>, k: nat): seq<A> {
    if k <= |s| then s[..|s| - k] else []
  }

  function Enter(stack: seq<string>, name: string): seq<string> {
    if name == "." then stack
    else if name == ".." then DropLast(stack, 1)
    else stack + [name]
  }

  /** Lexical resolution: follow the components from the root; ".." at the root stays there. */
  function Resolve(names: seq<string>): seq<string> {
    if names == [] then [] else Enter(Resolve(names[..|names| - 1]), names[|names| - 1])
  }

  function Meaning(path: string): seq<string> {
    Resolve(Split(path))
  }

  // ----- What the code computes with -----

  /** find_last_not_of(delim) + 1 */
  function TrimmedLength(s: string): (n: nat)
    ensures n <= |s| && (n > 0 ==> s[n - 1] != '/')
    ensures forall i :: n <= i < |s| ==> s[i] == '/'
  {
    if s == "" then 0 else if s[|s| - 1] != '/' then |s| else TrimmedLength(s[..|s| - 1])
  }

  /** find_last_of(delim) + 1 */
  function NameStart(s: string): (n: nat)
    ensures n <= |s| && (n > 0 ==> s[n - 1] == '/') && (forall i :: n <= i < |s| ==> s[i] != '/')
  {
    if s == "" then 0
    else if s[|s| - 1] == '/' then |s|
    else NameStart(s[..|s| - 1])
  }

  // ----- Splitting at the right end -----

  lemma {:induction false} SplitSlash(s: string)
    ensures Split(s + "/") == Split(s)
    decreases |s|
  {
    if s == "" {
      assert s + "/" == "/";
      assert "/"[1..] == "";
    } else if s[0] == '/' {
      assert (s + "/")[1..] == s[1..] + "/";
      SplitSlash(s[1..]);
    } else {
      var n := NameLength(s);
      NameLengthOf(s + "/", n);
      assert (s + "/")[..n] == s[..n] && (s + "/")[n..] == s[n..] + "/";
      SplitSlash(s[n..]);
    }
  }

  /** The leading name ends where the first delimiter is. */
  lemma {:induction false} NameLengthOf(s: string, n: nat)
    requires n <= |s| && (forall i :: 0 <= i < n ==> s[i] != '/') && (n < |s| ==> s[n] == '/')
    ensures NameLength(s) == n
  {
    var m := NameLength(s);
    assert m < |s| ==> s[m] == '/';
  }

  lemma {:induction false} SplitName(s: string, name: string)
    requires (s == "" || s[|s| - 1] == '/') && IsName(name)
    ensures Split(s + name) == Split(s) + [name]
    decreases |s|
  {
    if s == "" {
      assert s + name == name;
      assert name[..|name|] == name;
      NameLengthOf(name, |name|);
      assert name[|name|..] == "";
    } else if s[0] == '/' {
      assert (s + name)[1..] == s[1..] + name;
      SplitName(s[1..], name);
    } else {
      var n := NameLength(s);
      assert (s + name)[..n] == s[..n] && (s + name)[n..] == s[n..] + name;
      NameLengthOf(s + name, n);
      SplitName(s[n..], name);
    }
  }

  /** Trailing delimiters mean nothing. */
  lemma {:induction false} TrimMeans(s: string)
    ensures Split(s[..TrimmedLength(s)]) == Split(s)
  {
    if s != "" && s[|s| - 1] == '/' {
      var init := s[..|s| - 1];
      TrimMeans(init);
      assert init[..TrimmedLength(init)] == s[..TrimmedLength(s)];
      assert s == init + "/";
      SplitSlash(init);
    } else {
      assert s[..TrimmedLength(s)] == s;
    }
  }

  /** Taking the last name off a trimmed path undoes its Enter. */
  lemma LastNameMeans(t: string)
    requires t != "" && t[|t| - 1] != '/'
    ensures IsName(t[NameStart(t)..])
    ensures Meaning(t) == Enter(Meaning(t[..NameStart(t)]), t[NameStart(t)..])
  {
    var n := NameStart(t);
    var rest, name := t[..n], t[n..];
    assert t == rest + name;
    assert IsName(name) by {
      assert name[|name| - 1] == t[|t| - 1];
    }
    SplitName(rest, name);
    ResolveLast(Split(rest), name);
  }

  lemma ResolveLast(names: seq<string>, name: string)
    ensures Resolve(names + [name]) == Enter(Resolve(names), name)
  {
    assert (names + [name])[..|names|] == names;
  }

  // ----- Removing components -----

  lemma DropDrop<A>(s: seq<A>, j: nat, k: nat)
    ensures DropLast(DropLast(s, j), k) == DropLast(s, j + k)
  {
  }

  /** How many components are still to be removed after stepping over name. */
  function StillToRemove(name: string, k: nat): nat {
    k + (if name == "." then 1 else 0) + (if name == ".." then 2 else 0)
  }

  lemma StepOver(stack: seq<string>, name: string, k: nat)
    ensures DropLast(Enter(stack, name), k + 1) == DropLast(stack, StillToRemove(name, k))
  {
    if name == ".." {
      DropDrop(stack, 1, k + 1);
    } else if name != "." {
      assert DropLast(stack + [name], k + 1) == DropLast(stack, k);
    }
  }

  predicate IsAbsolute(path: string) {
    path != "" && path[0] == '/'
  }

  /** A path of delimiters only is the root. */
  lemma RootMeans(s: string)
    requires TrimmedLength(s) == 0
    ensures Meaning(s) == [] && Meaning("/") == []
  {
    TrimMeans(s);
    assert s[..0] == "" && "/"[1..] == "";
  }

  /** One round of the loop on the view s with k + 1 components to remove. */
  lemma RoundMeans(s: string, t: string, n: nat, k: nat)
    requires 0 < TrimmedLength(s) && t == s[..TrimmedLength(s)] && n == NameStart(t)
    ensures IsName(t[n..])
    ensures DropLast(Meaning(s), k + 1) == DropLast(Meaning(t[..n]), StillToRemove(t[n..], k))
  {
    TrimMeans(s);
    LastNameMeans(t);
    StepOver(Meaning(t[..n]), t[n..], k);
  }

  /** The trimming at the start of a round and at the end; empty when only delimiters are left. */
  method Trim(s: string) returns (t: string)
    ensures t <= s && t == s[..TrimmedLength(s)]
    ensures t != "" ==> t[|t| - 1] != '/'
    ensures Meaning(t) == Meaning(s)
  {
    TrimMeans(s);
    t := s[..TrimmedLength(s)];
  }

  /**
   * One round of the loop, with k + 1 components to remove: takes the last name off. The loop ends
   * without a name to take off, which an absolute path does not allow, or at the root.
   */
  method Round(s: string, k: nat) returns (more: bool, rest: string, k': nat)
    ensures rest == "" ==> !more && Meaning(s) == []
    ensures rest != "" ==> rest <= s
    ensures more ==> |rest| < |s| && DropLast(Meaning(rest), k') == DropLast(Meaning(s), k + 1)
    ensures IsAbsolute(s) && rest != "" ==> more
  {
    rest := Trim(s);
    k' := k;
    if rest == "" {
      RootMeans(s);
      return false, "", k;
    }
    var start := NameStart(rest);
    var elem := rest[start..];
    RoundMeans(s, rest, start, k);
    if elem == "" || |elem| == |rest| {
      return false, rest, k;
    }
    if elem == "." {
      k' := k' + 1;
    }
    if elem == ".." {
      k' := k' + 2;
    }
    more, rest := true, rest[..start];
  }

  /**
   * For an absolute path the result is a beginning of the path, has no trailing delimiter unless
   * it is the root, and names the directory reached by resolving the path and going level
   * directories up, staying at the root. The loop ends because the view gets shorter in every
   * round although the number of components to remove may grow.
   */
  method ParentDirView(path: string, level: nat) returns (result: string)
    ensures result == "/" || (result <= path && result != "" && result[|result| - 1] != '/')
    ensures IsAbsolute(path) ==> result <= path && Meaning(result) == DropLast(Meaning(path), level)
  {
    result := path;
    var toRemove := level;
    ghost var target := DropLast(Meaning(path), level);
    while toRemove != 0
      invariant result <= path && (IsAbsolute(path) ==> IsAbsolute(result))
      invariant IsAbsolute(path) ==> DropLast(Meaning(result), toRemove) == target
      decreases |result|
    {
      var more, rest, k := Round(result, toRemove - 1);
      if rest == "" {
        RootMeans("/");
        return "/";
      }
      result, toRemove := rest, k;
      if !more {
        break;
      }
    }
    var trimmed := Trim(result);
    if trimmed == "" {
      RootMeans(result);
      return "/";
    }
    result := trimmed;
  }
}
