/**
 * Resolution of an object type's exclusive constraints into exclusivity
 * groups. A constraint's target is either the name of one owned pointer or a
 * parenthesised list of dotted pointer references such as `(.a .b,)`.
 */
module ExclusiveTargets {
  import opened SchemaTypes

  /** The code points JavaScript's `String.prototype.trim` removes (white space and line terminators). */
  predicate IsJsWhitespace(c: char)
  {
    || c == '\t' || c == '\n' || c == '\U{000B}' || c == '\U{000C}' || c == '\r' || c == ' '
    || c == '\U{00A0}' || c == '\U{1680}' || ('\U{2000}' <= c <= '\U{200A}')
    || c == '\U{2028}' || c == '\U{2029}' || c == '\U{202F}' || c == '\U{205F}'
    || c == '\U{3000}' || c == '\U{FEFF}'
  }

  ghost predicate AllWhitespace(s: string)
  {
    forall i :: 0 <= i < |s| ==> IsJsWhitespace(s[i])
  }

  function TrimStart(s: string): (r: string)
    ensures |r| <= |s| && r == s[|s| - |r|..]
    ensures forall i :: 0 <= i < |s| - |r| ==> IsJsWhitespace(s[i])
    ensures r == [] || !IsJsWhitespace(r[0])
  {
    if |s| > 0 && IsJsWhitespace(s[0]) then TrimStart(s[1..]) else s
  }

  function TrimEnd(s: string): (r: string)
    ensures |r| <= |s| && r == s[..|r|]
    ensures forall i :: |r| <= i < |s| ==> IsJsWhitespace(s[i])
    ensures r == [] || !IsJsWhitespace(r[|r| - 1])
  {
    if |s| > 0 && IsJsWhitespace(s[|s| - 1]) then TrimEnd(s[..|s| - 1]) else s
  }

  /** `s.trim()`: whitespace dropped at both ends. */
  function Trim(s: string): string
  {
    TrimEnd(TrimStart(s))
  }

  /** `r` occurs in `s` at position `i` with only whitespace before and after it. */
  ghost predicate SurroundedAt(s: string, r: string, i: int)
  {
    0 <= i <= |s| - |r| && r == s[i..i + |r|] && AllWhitespace(s[..i]) && AllWhitespace(s[i + |r|..])
  }

  /** A slice `r` of the suffix `u` of `s`, with whitespace cut from both sides, is surrounded in `s`. */
  lemma SliceOfSuffix(s: string, u: string, r: string)
    requires |u| <= |s| && u == s[|s| - |u|..]
    requires forall k :: 0 <= k < |s| - |u| ==> IsJsWhitespace(s[k])
    requires |r| <= |u| && r == u[..|r|]
    requires forall k :: |r| <= k < |u| ==> IsJsWhitespace(u[k])
    ensures SurroundedAt(s, r, |s| - |u|)
  {
    var i := |s| - |u|;
    assert r == s[i..i + |r|];
    assert s[i + |r|..] == u[|r|..];
  }

  /** Trimming keeps a slice of `s` with only whitespace around it. */
  lemma TrimIsSlice(s: string)
    ensures exists i :: SurroundedAt(s, Trim(s), i)
  {
    var u := TrimStart(s);
    SliceOfSuffix(s, u, TrimEnd(u));
    assert SurroundedAt(s, Trim(s), |s| - |u|);
  }

  /** The trimmed string neither starts nor ends with whitespace. */
  lemma TrimEndsAreNotWhitespace(s: string)
    ensures var r := Trim(s); r == [] || (!IsJsWhitespace(r[0]) && !IsJsWhitespace(r[|r| - 1]))
  {
    var u := TrimStart(s);
    var r := TrimEnd(u);
    if r != [] {
      assert r[0] == u[0];
    }
  }

  /** Drops one leading `.` and then one trailing `,`. */
  function StripMarks(u: string): (r: string)
    ensures |r| <= |u| <= |r| + 2
    ensures |u| > 0 && u[0] == '.' ==> |r| < |u| && r == u[1..|r| + 1]
    ensures (|u| == 0 || u[0] != '.') ==> r == u[..|r|]
    ensures |r| < |u| - (if |u| > 0 && u[0] == '.' then 1 else 0) ==> u[|u| - 1] == ','
    ensures var d := if |u| > 0 && u[0] == '.' then 1 else 0;
      |r| == |u| - d - (if |u| > d && u[|u| - 1] == ',' then 1 else 0)
  {
    var v := if |u| > 0 && u[0] == '.' then u[1..] else u;
    if |v| > 0 && v[|v| - 1] == ',' then v[..|v| - 1] else v
  }

  /** The clean-up applied to each token of a composite target. */
  function TrimToken(t: string): string
  {
    StripMarks(Trim(t))
  }

  /** `parts.join(sep)`. */
  function Join(parts: seq<string>, sep: char): string
  {
    if |parts| == 0 then ""
    else if |parts| == 1 then parts[0]
    else parts[0] + [sep] + Join(parts[1..], sep)
  }

  /** `s.split(sep)` for a one-character separator: empty pieces are kept. */
  function Split(s: string, sep: char): (r: seq<string>)
    ensures |r| >= 1
    ensures forall i :: 0 <= i < |r| ==> sep !in r[i]
    ensures Join(r, sep) == s
  {
    if s == [] then [""]
    else
      var rest := Split(s[1..], sep);
      if s[0] == sep then
        [""] + rest
      else
        assert Join(rest, sep) == rest[0] + (if |rest| == 1 then "" else [sep] + Join(rest[1..], sep));
        [[s[0]] + rest[0]] + rest[1..]
  }

  /** Whether `target` is a composite target: wrapped in `(` and `)`. */
  predicate IsParenthesised(target: string)
    ensures IsParenthesised(target) ==> |target| >= 2
  {
    |target| > 0 && target[0] == '(' && target[|target| - 1] == ')'
  }

  /** The names a composite target lists, cleaned up token by token. */
  function Tokens(target: string): (r: seq<string>)
    requires IsParenthesised(target)
    ensures |r| >= 1
  {
    var pieces := Split(target[1..|target| - 1], ' ');
    seq(|pieces|, i requires 0 <= i < |pieces| => TrimToken(pieces[i]))
  }

  /** No pointer after position `i` has the name of `ps[i]`. */
  ghost predicate IsLastNamed(ps: seq<Pointer>, i: int)
    requires 0 <= i < |ps|
  {
    forall j :: i < j < |ps| ==> ps[j].name != ps[i].name
  }

  /** The `ptrs` dictionary: owned pointers by name, a later pointer overwriting an earlier one. */
  function PointerIndex(ps: seq<Pointer>): map<string, Pointer>
  {
    if ps == [] then map[]
    else PointerIndex(ps[..|ps| - 1])[ps[|ps| - 1].name := ps[|ps| - 1]]
  }

  /** The dictionary's keys are exactly the names of the pointers, and each maps to the last pointer of that name. */
  lemma {:induction false} PointerIndexIsLastWriteWins(ps: seq<Pointer>)
    ensures forall i :: 0 <= i < |ps| ==> ps[i].name in PointerIndex(ps)
    ensures forall k :: k in PointerIndex(ps) ==> exists i :: 0 <= i < |ps| && ps[i].name == k
    ensures forall i :: 0 <= i < |ps| && IsLastNamed(ps, i) ==> PointerIndex(ps)[ps[i].name] == ps[i]
  {
    if ps != [] {
      var init := ps[..|ps| - 1];
      var last := ps[|ps| - 1];
      var m0 := PointerIndex(init);
      var m := PointerIndex(ps);
      PointerIndexIsLastWriteWins(init);
      assert m == m0[last.name := last];
      forall i | 0 <= i < |ps|
        ensures ps[i].name in m
      {
        if i < |ps| - 1 {
          assert ps[i] == init[i];
        }
      }
      forall k | k in m
        ensures exists i :: 0 <= i < |ps| && ps[i].name == k
      {
        if k != last.name {
          var i :| 0 <= i < |init| && init[i].name == k;
          assert ps[i] == init[i];
        }
      }
      forall i | 0 <= i < |ps| && IsLastNamed(ps, i)
        ensures m[ps[i].name] == ps[i]
      {
        if i < |ps| - 1 {
          assert ps[i] == init[i];
          assert ps[i].name != last.name;
          assert IsLastNamed(init, i);
        }
      }
    }
  }

  /** The group of a composite target whose tokens all name owned pointers. */
  function CompositeGroup(tokens: seq<string>, ptrs: map<string, Pointer>): (g: Group)
    requires forall t :: t in tokens ==> t in ptrs
    ensures forall t :: t in tokens ==> t in g
    ensures forall k :: k in g ==> k in tokens && g[k] == ptrs[k]
  {
    map t | t in tokens :: ptrs[t]
  }

  /** `targets.every(t => t in ptrs)` for the tokens of a composite target. */
  predicate AllTokensOwned(target: string, ptrs: map<string, Pointer>)
    requires IsParenthesised(target)
  {
    forall t :: t in Tokens(target) ==> t in ptrs
  }

  /** What one raw constraint target contributes, in order: the single-pointer group, then the composite group. */
  function TargetGroups(target: string, ptrs: map<string, Pointer>): seq<Group>
  {
    (if target in ptrs then [map[target := ptrs[target]]] else [])
    + (if IsParenthesised(target) && AllTokensOwned(target, ptrs)
       then [CompositeGroup(Tokens(target), ptrs)]
       else [])
  }

  /** The groups of all raw constraint targets, concatenated in target order. */
  function ExclusiveGroups(targets: seq<string>, ptrs: map<string, Pointer>): seq<Group>
  {
    if targets == [] then []
    else ExclusiveGroups(targets[..|targets| - 1], ptrs) + TargetGroups(targets[|targets| - 1], ptrs)
  }

  /** Fills the `ptrs` dictionary from an object type's owned pointers. */
  method BuildPointerIndex(pointers: seq<Pointer>) returns (ptrs: map<string, Pointer>)
    ensures ptrs == PointerIndex(pointers)
  {
    ptrs := map[];
    for i := 0 to |pointers|
      invariant ptrs == PointerIndex(pointers[..i])
    {
      assert pointers[..i + 1][..i] == pointers[..i];
      ptrs := ptrs[pointers[i].name := pointers[i]];
    }
    assert pointers[..|pointers|] == pointers;
  }

  /** The `newEx` object of a composite target: each token mapped to its pointer. */
  method BuildGroup(tokens: seq<string>, ptrs: map<string, Pointer>) returns (group: Group)
    requires forall t :: t in tokens ==> t in ptrs
    ensures group == CompositeGroup(tokens, ptrs)
  {
    group := map[];
    for j := 0 to |tokens|
      invariant group.Keys == set t | t in tokens[..j]
      invariant forall k :: k in group ==> group[k] == ptrs[k]
    {
      assert tokens[..j + 1] == tokens[..j] + [tokens[j]];
      group := group[tokens[j] := ptrs[tokens[j]]];
    }
    assert tokens[..|tokens|] == tokens;
  }

  /** Builds the exclusivity groups of an object type from its raw constraint targets. */
  method ResolveExclusives(ptrs: map<string, Pointer>, targets: seq<string>) returns (groups: seq<Group>)
    ensures groups == ExclusiveGroups(targets, ptrs)
  {
    groups := [];
    for i := 0 to |targets|
      invariant groups == ExclusiveGroups(targets[..i], ptrs)
    {
      ExclusiveGroupsStep(targets, i, ptrs);
      var target := targets[i];
      ghost var single: seq<Group> := if target in ptrs then [map[target := ptrs[target]]] else [];
      if target in ptrs {
        groups := groups + [map[target := ptrs[target]]];
      }
      if IsParenthesised(target) {
        var tokens := Tokens(target);
        if !(forall t | t in tokens :: t in ptrs) {
          assert !AllTokensOwned(target, ptrs);
          continue;
        }
        var group := BuildGroup(tokens, ptrs);
        assert TargetGroups(target, ptrs) == single + [group];
        groups := groups + [group];
      }
    }
    assert targets[..|targets|] == targets;
  }

  lemma ExclusiveGroupsStep(targets: seq<string>, i: int, ptrs: map<string, Pointer>)
    requires 0 <= i < |targets|
    ensures ExclusiveGroups(targets[..i + 1], ptrs) == ExclusiveGroups(targets[..i], ptrs) + TargetGroups(targets[i], ptrs)
  {
    assert targets[..i + 1][..i] == targets[..i];
  }

  /** Splitting undoes joining pieces that do not contain the separator. */
  lemma {:induction false} SplitJoin(parts: seq<string>, sep: char)
    requires |parts| >= 1
    requires forall i :: 0 <= i < |parts| ==> sep !in parts[i]
    ensures Split(Join(parts, sep), sep) == parts
    decreases |parts|, |parts[0]|
  {
    var s := Join(parts, sep);
    if |parts[0]| == 0 {
      if |parts| > 1 {
        assert s == [sep] + Join(parts[1..], sep);
        assert s[1..] == Join(parts[1..], sep);
        SplitJoin(parts[1..], sep);
        assert parts == [""] + parts[1..];
      }
    } else {
      var c := parts[0][0];
      var shorter := [parts[0][1..]] + parts[1..];
      assert shorter[1..] == parts[1..];
      assert forall i :: 0 <= i < |shorter| ==> sep !in shorter[i] by {
        assert forall i :: 1 <= i < |shorter| ==> shorter[i] == parts[i];
        assert forall x :: x in parts[0][1..] ==> x in parts[0];
      }
      assert Join(shorter, sep) == s[1..] by {
        if |parts| > 1 {
          assert s == parts[0] + [sep] + Join(parts[1..], sep);
          assert Join(shorter, sep) == parts[0][1..] + [sep] + Join(parts[1..], sep);
        }
      }
      SplitJoin(shorter, sep);
      assert c != sep;
      assert parts[0] == [c] + shorter[0];
      assert parts == [[c] + shorter[0]] + shorter[1..];
    }
  }

  lemma {:induction false} TrimStartSkips(lead: string, x: string)
    requires AllWhitespace(lead) && (x == [] || !IsJsWhitespace(x[0]))
    ensures TrimStart(lead + x) == x
    decreases |lead|
  {
    if lead != [] {
      assert (lead + x)[1..] == lead[1..] + x;
      TrimStartSkips(lead[1..], x);
    } else {
      assert lead + x == x;
    }
  }

  lemma {:induction false} TrimEndSkips(x: string, trail: string)
    requires AllWhitespace(trail) && (x == [] || !IsJsWhitespace(x[|x| - 1]))
    ensures TrimEnd(x + trail) == x
    decreases |trail|
  {
    if trail != [] {
      var s := x + trail;
      assert s[..|s| - 1] == x + trail[..|trail| - 1];
      assert s[|s| - 1] == trail[|trail| - 1];
      TrimEndSkips(x, trail[..|trail| - 1]);
    } else {
      assert x + trail == x;
    }
  }

  /** Trimming removes exactly the whitespace around a core whose ends are not whitespace. */
  lemma TrimSurrounded(lead: string, core: string, trail: string)
    requires AllWhitespace(lead) && AllWhitespace(trail)
    requires core == [] || (!IsJsWhitespace(core[0]) && !IsJsWhitespace(core[|core| - 1]))
    ensures Trim(lead + core + trail) == core
  {
    if core == [] {
      assert lead + core + trail == (lead + trail) + "";
      TrimStartSkips(lead + trail, "");
    } else {
      assert lead + core + trail == lead + (core + trail);
      TrimStartSkips(lead, core + trail);
      TrimEndSkips(core, trail);
    }
  }

  /** A bare pointer name: nothing for the token clean-up to strip from it. */
  ghost predicate IsBareName(n: string)
  {
    n == [] ||
    (!IsJsWhitespace(n[0]) && n[0] != '.' && !IsJsWhitespace(n[|n| - 1]) && n[|n| - 1] != ',')
  }

  /** Stripping the marks from `.name,` (either mark optional) leaves `name`. */
  lemma StripMarksRecoversName(dot: bool, n: string, comma: bool)
    requires IsBareName(n)
    ensures StripMarks((if dot then "." else "") + n + (if comma then "," else "")) == n
  {
    var c: string := if comma then "," else "";
    var core := (if dot then "." else "") + n + c;
    var v := if |core| > 0 && core[0] == '.' then core[1..] else core;
    assert v == n + c by {
      if dot {
        assert core == "." + (n + c);
      } else if n != [] {
        assert core[0] == n[0];
      } else if comma {
        assert core == ",";
      }
    }
    if comma {
      assert v[..|v| - 1] == n;
    } else if n != [] {
      assert v[|v| - 1] == n[|n| - 1];
    }
  }

  /** A token `.name,` (either mark optional, whitespace around allowed) cleans up to `name`. */
  lemma TrimTokenRecoversName(t: string, lead: string, dot: bool, n: string, comma: bool, trail: string)
    requires AllWhitespace(lead) && AllWhitespace(trail) && IsBareName(n)
    requires t == lead + (if dot then "." else "") + n + (if comma then "," else "") + trail
    ensures TrimToken(t) == n
  {
    var d: string := if dot then "." else "";
    var c: string := if comma then "," else "";
    var core := d + n + c;
    assert t == lead + core + trail;
    assert core == [] || (!IsJsWhitespace(core[0]) && !IsJsWhitespace(core[|core| - 1])) by {
      if core != [] {
        assert core[0] in {'.', ','} || core[0] == n[0];
        assert core[|core| - 1] in {'.', ','} || core[|core| - 1] == n[|n| - 1];
      }
    }
    TrimSurrounded(lead, core, trail);
    StripMarksRecoversName(dot, n, comma);
  }

  /** A group is non-empty and maps names only to the owned pointers of those names. */
  ghost predicate IsOwnedGroup(g: Group, ptrs: map<string, Pointer>)
  {
    g != map[] && forall k :: k in g ==> k in ptrs && g[k] == ptrs[k]
  }

  /** The group of a composite target whose tokens are all owned is an owned group. */
  lemma CompositeGroupIsOwned(tokens: seq<string>, ptrs: map<string, Pointer>)
    requires |tokens| >= 1 && forall t :: t in tokens ==> t in ptrs
    ensures IsOwnedGroup(CompositeGroup(tokens, ptrs), ptrs)
  {
    assert tokens[0] in CompositeGroup(tokens, ptrs);
  }

  /** The groups one target contributes are owned groups. */
  lemma TargetGroupsAreOwned(target: string, ptrs: map<string, Pointer>)
    ensures forall g :: g in TargetGroups(target, ptrs) ==> IsOwnedGroup(g, ptrs)
  {
    var single: seq<Group> := if target in ptrs then [map[target := ptrs[target]]] else [];
    if target in ptrs {
      assert target in map[target := ptrs[target]];
      assert IsOwnedGroup(map[target := ptrs[target]], ptrs);
    }
    if IsParenthesised(target) && AllTokensOwned(target, ptrs) {
      var tokens := Tokens(target);
      CompositeGroupIsOwned(tokens, ptrs);
      assert TargetGroups(target, ptrs) == single + [CompositeGroup(tokens, ptrs)];
    } else {
      assert TargetGroups(target, ptrs) == single;
    }
  }

  /** Every exclusivity group is an owned group. */
  lemma {:induction false} ExclusiveGroupsAreOwned(targets: seq<string>, ptrs: map<string, Pointer>)
    ensures forall g :: g in ExclusiveGroups(targets, ptrs) ==> IsOwnedGroup(g, ptrs)
  {
    if targets != [] {
      var init := targets[..|targets| - 1];
      ExclusiveGroupsAreOwned(init, ptrs);
      TargetGroupsAreOwned(targets[|targets| - 1], ptrs);
      assert ExclusiveGroups(targets, ptrs) == ExclusiveGroups(init, ptrs) + TargetGroups(targets[|targets| - 1], ptrs);
    }
  }

  /** Groups of consecutive target lists concatenate: nothing is merged or deduplicated. */
  lemma {:induction false} ExclusiveGroupsAppend(a: seq<string>, b: seq<string>, ptrs: map<string, Pointer>)
    ensures ExclusiveGroups(a + b, ptrs) == ExclusiveGroups(a, ptrs) + ExclusiveGroups(b, ptrs)
    decreases |b|
  {
    if b == [] {
      assert a + b == a;
    } else {
      var b' := b[..|b| - 1];
      assert (a + b)[..|a + b| - 1] == a + b';
      ExclusiveGroupsAppend(a, b', ptrs);
    }
  }

  /** A one-target list contributes exactly what that target does. */
  lemma ExclusiveGroupsOfOne(target: string, ptrs: map<string, Pointer>)
    ensures ExclusiveGroups([target], ptrs) == TargetGroups(target, ptrs)
  {
    assert [target][..0] == [];
  }

  /** A target naming an owned pointer, not in parentheses, contributes exactly the one-entry group. */
  lemma SingleTargetGroup(target: string, ptrs: map<string, Pointer>)
    requires target in ptrs && !IsParenthesised(target)
    ensures ExclusiveGroups([target], ptrs) == [map[target := ptrs[target]]]
  {
    ExclusiveGroupsOfOne(target, ptrs);
  }

  /**
   * A composite target that is not itself a pointer name contributes one group keyed by
   * exactly its tokens when every token names an owned pointer, and nothing otherwise.
   */
  lemma CompositeTargetAllOrNothing(target: string, ptrs: map<string, Pointer>)
    requires IsParenthesised(target) && target !in ptrs
    ensures (forall t :: t in Tokens(target) ==> t in ptrs) ==>
              var gs := ExclusiveGroups([target], ptrs);
              |gs| == 1 && gs[0].Keys == (set t | t in Tokens(target)) && forall k :: k in gs[0] ==> gs[0][k] == ptrs[k]
    ensures (exists t :: t in Tokens(target) && t !in ptrs) ==> ExclusiveGroups([target], ptrs) == []
  {
    ExclusiveGroupsOfOne(target, ptrs);
  }

  /** The space-separated pieces `.n0 .n1, ...`: each name dotted, with an optional trailing comma. */
  function DottedPieces(ns: seq<string>, commas: seq<bool>): seq<string>
    requires |commas| == |ns|
  {
    seq(|ns|, i requires 0 <= i < |ns| => "." + ns[i] + (if commas[i] then "," else ""))
  }

  lemma DottedPiece(n: string, comma: bool)
    requires IsBareName(n) && ' ' !in n
    ensures ' ' !in "." + n + (if comma then "," else "")
    ensures TrimToken("." + n + (if comma then "," else "")) == n
  {
    var c: string := if comma then "," else "";
    var piece := "." + n + c;
    assert ' ' !in piece by {
      assert ' ' !in c;
      assert piece == "." + (n + c);
    }
    assert piece == "" + "." + n + c + "";
    TrimTokenRecoversName(piece, "", true, n, comma, "");
  }

  /** The tokens of `(` + inner + `)` are the cleaned-up space-separated pieces of inner. */
  lemma TokensOfInner(inner: string)
    ensures IsParenthesised("(" + inner + ")")
    ensures var pieces := Split(inner, ' ');
      Tokens("(" + inner + ")") == seq(|pieces|, i requires 0 <= i < |pieces| => TrimToken(pieces[i]))
  {
    var target := "(" + inner + ")";
    assert target[1..|target| - 1] == inner;
  }

  /** A parenthesised list of dotted names, such as `(.a .b,)` or `(.a, .b)`, is read back as the names. */
  lemma TokensOfDottedList(ns: seq<string>, commas: seq<bool>)
    requires |ns| == |commas| >= 1
    requires forall i :: 0 <= i < |ns| ==> IsBareName(ns[i]) && ' ' !in ns[i]
    ensures IsParenthesised("(" + Join(DottedPieces(ns, commas), ' ') + ")")
    ensures Tokens("(" + Join(DottedPieces(ns, commas), ' ') + ")") == ns
  {
    var pieces := DottedPieces(ns, commas);
    forall i | 0 <= i < |pieces|
      ensures ' ' !in pieces[i] && TrimToken(pieces[i]) == ns[i]
    {
      DottedPiece(ns[i], commas[i]);
    }
    SplitJoin(pieces, ' ');
    TokensOfInner(Join(pieces, ' '));
  }

  /** `(.a .b,)` is read as the two pointer names `a` and `b`. */
  lemma DottedPairTokens(target: string, a: string, b: string)
    requires IsBareName(a) && ' ' !in a && IsBareName(b) && ' ' !in b
    requires target == "(." + a + " ." + b + ",)"
    ensures IsParenthesised(target) && Tokens(target) == [a, b]
  {
    var pieces := DottedPieces([a, b], [false, true]);
    assert |pieces| == 2 && pieces[0] == "." + a && pieces[1] == "." + b + ",";
    assert pieces[1..] == [pieces[1]];
    assert Join(pieces, ' ') == pieces[0] + " " + pieces[1];
    assert target == "(" + Join(pieces, ' ') + ")";
    TokensOfDottedList([a, b], [false, true]);
  }
}
