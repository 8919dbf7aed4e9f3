/** Stack-based resolution of `.`, `..` and repeated slashes in a request path. */
module Paths {
  import opened Seqs

  predicate Ordinary(seg: string) { seg != "" && seg != "." && seg != ".." }

  function Step(stack: seq<string>, seg: string): seq<string>
  {
    if Ordinary(seg) then stack + [seg]
    else if seg == ".." && stack != [] then stack[..|stack| - 1]
    else stack
  }

  function Walk(stack: seq<string>, segs: seq<string>): seq<string>
    decreases |segs|
  {
    if segs == [] then stack else Walk(Step(stack, segs[0]), segs[1..])
  }

  function Render(stack: seq<string>): string
  {
    if stack == [] then "" else ['/'] + stack[0] + Render(stack[1..])
  }

  function Stack(path: string): seq<string> { Walk([], Split(path, '/')) }

  function Resolve(path: string): string
  {
    if Stack(path) == [] then "/" else Render(Stack(path))
  }

  method ResolvePath(path: string) returns (out: string)
    ensures out == Resolve(path)
  {
    var segments: seq<string> := [];
    var pieces := Split(path, '/');
    for i := 0 to |pieces|
      invariant Walk(segments, pieces[i..]) == Stack(path)
    {
      var seg := pieces[i];
      assert pieces[i..][1..] == pieces[i + 1..];
      if seg == "" || seg == "." {
      } else if seg == ".." {
        if segments != [] { segments := segments[..|segments| - 1]; }
      } else {
        segments := segments + [seg];
      }
    }
    out := RenderSegments(segments);
    if out == "" { out := "/"; }
  }

  method RenderSegments(segments: seq<string>) returns (out: string)
    ensures out == Render(segments)
  {
    out := "";
    for i := 0 to |segments|
      invariant out + Render(segments[i..]) == Render(segments)
    {
      assert segments[i..][1..] == segments[i + 1..];
      Assoc(out, ['/'] + segments[i], Render(segments[i + 1..]));
      Assoc(out, ['/'], segments[i]);
      out := out + ['/'] + segments[i];
    }
  }

  // ---- what the stack holds ----

  ghost predicate Clean(stack: seq<string>)
  {
    forall i :: 0 <= i < |stack| ==> Ordinary(stack[i]) && '/' !in stack[i]
  }

  lemma {:induction false} WalkIsClean(stack: seq<string>, segs: seq<string>)
    requires Clean(stack) && forall i :: 0 <= i < |segs| ==> '/' !in segs[i]
    ensures Clean(Walk(stack, segs))
    decreases |segs|
  {
    if segs != [] { WalkIsClean(Step(stack, segs[0]), segs[1..]); }
  }

  lemma StackIsClean(path: string)
    ensures Clean(Stack(path))
  {
    PiecesAreFree(path, '/');
    WalkIsClean([], Split(path, '/'));
  }

  lemma {:induction false} WalkConcat(stack: seq<string>, a: seq<string>, b: seq<string>)
    ensures Walk(stack, a + b) == Walk(Walk(stack, a), b)
    decreases |a|
  {
    if a == [] {
      assert a + b == b;
    } else {
      WalkConcat(Step(stack, a[0]), a[1..], b);
      assert (a + b)[1..] == a[1..] + b;
    }
  }

  lemma {:induction false} WalkOrdinary(stack: seq<string>, segs: seq<string>)
    requires Clean(segs)
    ensures Walk(stack, segs) == stack + segs
    decreases |segs|
  {
    if segs == [] {
      assert stack + segs == stack;
    } else {
      WalkOrdinary(stack + [segs[0]], segs[1..]);
      assert stack + [segs[0]] + segs[1..] == stack + segs;
    }
  }

  lemma {:induction false} SplitRendered(stack: seq<string>)
    requires Clean(stack) && stack != []
    ensures Split(Render(stack), '/') == [""] + stack
    decreases |stack|
  {
    var first, more := stack[0], Render(stack[1..]);
    assert Render(stack)[1..] == first + more && Render(stack)[0] == '/';
    assert stack == [first] + stack[1..];
    if |stack| == 1 {
      assert first + more == first;
      SplitPiece(first, "", '/');
    } else {
      SplitRendered(stack[1..]);
      var tail := more[1..];
      assert more == ['/'] + tail && first + more == first + ['/'] + tail;
      SplitPiece(first, tail, '/');
      assert Split(more, '/') == [""] + Split(tail, '/');
      assert Split(tail, '/') == Split(more, '/')[1..] == stack[1..];
    }
  }

  /** The pieces of a resolved path: a leading empty one, then the segments on the stack. */
  lemma ResolvedPieces(path: string)
    ensures Split(Resolve(path), '/') == if Stack(path) == [] then ["", ""] else [""] + Stack(path)
  {
    StackIsClean(path);
    if Stack(path) == [] {
      assert "/"[1..] == "";
    } else {
      SplitRendered(Stack(path));
    }
  }

  lemma ResolvedStack(path: string)
    ensures Stack(Resolve(path)) == Stack(path)
  {
    ResolvedPieces(path);
    StackIsClean(path);
    var s := Stack(path);
    if s == [] {
      WalkConcat([], [""], [""]);
    } else {
      WalkConcat([], [""], s);
      WalkOrdinary([], s);
      assert [] + s == s;
    }
  }

  // ---- the promises ----

  /** A resolved path starts with a slash and has no empty, `.` or `..` segment. */
  lemma ResolvedIsClean(path: string)
    ensures var r := Resolve(path);
            && r != "" && r[0] == '/'
            && (r == "/" || forall i :: 1 <= i < |Split(r, '/')| ==> Ordinary(Split(r, '/')[i]))
  {
    ResolvedPieces(path);
    StackIsClean(path);
  }

  lemma ResolveTwice(path: string)
    ensures Resolve(Resolve(path)) == Resolve(path)
  {
    ResolvedStack(path);
  }

  /** A prefix may be resolved beforehand: nothing that follows it can tell. */
  lemma ResolvePrefix(a: string, b: string)
    ensures Resolve(a + ['/'] + b) == Resolve(Resolve(a) + ['/'] + b)
  {
    StackConcat(a, b);
    StackConcat(Resolve(a), b);
    ResolvedStack(a);
  }

  lemma StackConcat(a: string, b: string)
    ensures Stack(a + ['/'] + b) == Walk(Stack(a), Split(b, '/'))
  {
    SplitConcat(a, b, '/');
    WalkConcat([], Split(a, '/'), Split(b, '/'));
  }

  /** `..` takes back exactly the segment before it, and above the root it does nothing. */
  lemma ParentUndoesChild(a: string, seg: string, b: string)
    requires Ordinary(seg) && '/' !in seg
    ensures Resolve(a + ['/'] + (seg + ['/'] + (".." + ['/'] + b))) == Resolve(a + ['/'] + b)
    ensures Resolve(".." + ['/'] + b) == Resolve(b)
  {
    var tail := ".." + ['/'] + b;
    SplitPiece("..", b, '/');
    SplitPiece(seg, tail, '/');
    StackConcat(a, seg + ['/'] + tail);
    StackConcat(a, b);
    DownAndUp(Stack(a), seg, Split(b, '/'));
    Drop("..", Split(b, '/'));
  }

  lemma DownAndUp(stack: seq<string>, seg: string, rest: seq<string>)
    requires Ordinary(seg)
    ensures Walk(stack, [seg] + ([".."] + rest)) == Walk(stack, rest)
  {
    assert ([seg] + ([".."] + rest))[1..] == [".."] + rest && ([".."] + rest)[1..] == rest;
    assert (stack + [seg])[..|stack|] == stack;
  }

  lemma Drop(seg: string, rest: seq<string>)
    requires !Ordinary(seg)
    ensures Walk([], [seg] + rest) == Walk([], rest)
  {
    assert ([seg] + rest)[1..] == rest;
  }

  /** `.` and empty segments name the directory they stand in, wherever they stand. */
  lemma StayingChangesNothing(a: string, b: string)
    ensures Resolve(a + "/./" + b) == Resolve(a + "/" + b)
    ensures Resolve(a + "//" + b) == Resolve(a + "/" + b)
  {
    StayingInside(a, ".", b);
    StayingInside(a, "", b);
    assert a + "/./" + b == a + ['/'] + ("." + ['/'] + b);
    assert a + "//" + b == a + ['/'] + ("" + ['/'] + b);
  }

  /** Neither do they at the end of a path, nor a slash before it. */
  lemma EdgesChangeNothing(a: string)
    ensures Resolve(a + "/.") == Resolve(a) && Resolve(a + "/") == Resolve(a) && Resolve("/" + a) == Resolve(a)
  {
    StayingAtEnd(a, ".");
    StayingAtEnd(a, "");
    assert a + "/." == a + ['/'] + "." && a + "/" == a + ['/'] + "";
    StackConcat("", a);
    assert "" + ['/'] + a == "/" + a;
    Stays([], "", []);
  }

  lemma StayingInside(a: string, seg: string, b: string)
    requires seg == "" || seg == "."
    ensures Stack(a + ['/'] + (seg + ['/'] + b)) == Stack(a + ['/'] + b)
  {
    SplitPiece(seg, b, '/');
    StackConcat(a, seg + ['/'] + b);
    StackConcat(a, b);
    Stays(Stack(a), seg, Split(b, '/'));
  }

  lemma StayingAtEnd(a: string, seg: string)
    requires seg == "" || seg == "."
    ensures Stack(a + ['/'] + seg) == Stack(a)
  {
    SplitPiece(seg, "", '/');
    StackConcat(a, seg);
    Stays(Stack(a), seg, []);
  }

  lemma Stays(stack: seq<string>, seg: string, rest: seq<string>)
    requires seg == "" || seg == "."
    ensures Walk(stack, [seg] + rest) == Walk(stack, rest) && Walk(stack, [seg]) == stack
  {
    assert ([seg] + rest)[1..] == rest && [seg][1..] == [];
  }

  /** A path of ordinary segments behind slashes is its own resolution. */
  lemma CleanPathIsKept(segs: seq<string>)
    requires segs != [] && forall i :: 0 <= i < |segs| ==> segs[i] != "" && segs[i] != "." && segs[i] != ".."
    requires forall i :: 0 <= i < |segs| ==> '/' !in segs[i]
    ensures Resolve("/" + Join(segs, '/')) == "/" + Join(segs, '/')
  {
    var path := "/" + Join(segs, '/');
    RenderJoins(segs);
    SplitRendered(segs);
    WalkConcat([], [""], segs);
    WalkOrdinary([], segs);
    assert [] + segs == segs;
  }

  lemma {:induction false} RenderJoins(segs: seq<string>)
    requires segs != []
    ensures Render(segs) == "/" + Join(segs, '/')
    decreases |segs|
  {
    if |segs| == 1 {
      assert Render(segs) == ['/'] + segs[0] + Render(segs[1..]) == "/" + segs[0];
    } else {
      RenderJoins(segs[1..]);
      assert Render(segs) == ['/'] + segs[0] + ("/" + Join(segs[1..], '/'));
    }
  }
}
