/** The in-place path collapser of wslpath: a right-to-left scan of one NUL-terminated buffer
    that drops `.`, empty and `..` segments by shifting the tail of the buffer down. */
module CollapsePath {

  const NUL: char := '\0'
  const EINVAL := 22

  datatype Option<+T> = None | Some(value: T)

  // ---------------------------------------------------------------------
  // Strings in a buffer
  // ---------------------------------------------------------------------

  /** The C string stored at position `at` of a buffer. */
  ghost predicate HoldsAt(buffer: seq<char>, at: nat, s: string) {
    && at + |s| < |buffer|
    && (forall i :: 0 <= i < |s| ==> s[i] == buffer[at + i] && s[i] != NUL)
    && buffer[at + |s|] == NUL
  }

  /** `len` characters from `src` copied over those at `dst`. */
  function Moved(b: seq<char>, dst: nat, src: nat, len: nat): seq<char>
    requires dst + len <= |b| && src + len <= |b|
  {
    b[..dst] + b[src..src + len] + b[dst + len..]
  }

  /** The libc `memmove`: overlapping copy inside one buffer. */
  method MemMove(a: array<char>, dst: nat, src: nat, len: nat)
    requires dst + len <= a.Length && src + len <= a.Length
    modifies a
    ensures a[..] == Moved(old(a[..]), dst, src, len)
  {
    forall i | 0 <= i < len {
      a[dst + i] := a[src + i];
    }
  }

  /** The libc `strlen`. */
  method StrLen(a: array<char>, ghost s: string) returns (n: nat)
    requires HoldsAt(a[..], 0, s)
    ensures n == |s|
  {
    assert forall i :: 0 <= i < |s| ==> a[i] == s[i];
    n := 0;
    while a[n] != NUL
      invariant n <= |s|
      decreases |s| - n
    {
      n := n + 1;
    }
  }

  /** The libc `memrchr`: position of the last `c` among the first `len` characters. */
  method MemRChr(a: array<char>, c: char, len: nat) returns (r: Option<nat>)
    requires len <= a.Length
    ensures r.None? ==> c !in a[..][..len]
    ensures r.Some? ==> r.value < len && a[..][r.value] == c && c !in a[..][r.value + 1..len]
  {
    var i := len;
    while i > 0
      invariant 0 <= i <= len
      invariant c !in a[..][i..len]
    {
      i := i - 1;
      if a[i] == c {
        return Some(i);
      }
    }
    return None;
  }

  // ---------------------------------------------------------------------
  // Paths as sequences of segments
  // ---------------------------------------------------------------------

  /** Position of the last separator, if there is one. */
  function LastIndex(s: string, sep: char): (r: Option<nat>)
    ensures r.None? <==> sep !in s
    ensures r.Some? ==> r.value < |s| && s[r.value] == sep && sep !in s[r.value + 1..]
  {
    if s == "" then None
    else if s[|s| - 1] == sep then Some(|s| - 1)
    else
      assert s == s[..|s| - 1] + [s[|s| - 1]];
      LastIndex(s[..|s| - 1], sep)
  }

  /** The text before the first separator, followed by the segments after each separator. */
  function Segments(s: string, sep: char): (r: seq<string>)
    ensures r != []
    decreases |s|
  {
    match LastIndex(s, sep)
    case None => [s]
    case Some(k) => Segments(s[..k], sep) + [s[k + 1..]]
  }

  function Join(segs: seq<string>, sep: char): string
    requires segs != []
  {
    if |segs| == 1 then segs[0] else segs[0] + [sep] + Join(segs[1..], sep)
  }

  ghost predicate SepFree(segs: seq<string>, sep: char) {
    forall i :: 0 <= i < |segs| ==> sep !in segs[i]
  }

  /** `..`; `.` or nothing; anything else. */
  datatype Kind = Up | Skip | Name

  function KindOf(seg: string): Kind {
    if seg == ".." then Up else if seg == "" || seg == "." then Skip else Name
  }

  // ---------------------------------------------------------------------
  // The reference: left-to-right normalisation with a stack
  // ---------------------------------------------------------------------

  /** Resolves segments against a stack of parents; `None` when a `..` finds no parent. */
  function Resolve(segs: seq<string>, stack: seq<string>): Option<seq<string>> {
    if segs == [] then Some(stack)
    else if KindOf(segs[0]).Up? then
      if stack == [] then None else Resolve(segs[1..], stack[..|stack| - 1])
    else if KindOf(segs[0]).Skip? then Resolve(segs[1..], stack)
    else Resolve(segs[1..], stack + [segs[0]])
  }

  /** A path that ends in a directory reference keeps a trailing separator. */
  function Trailing(segs: seq<string>): seq<string> {
    if segs == [] || KindOf(segs[|segs| - 1]).Name? then [] else [""]
  }

  function Normalize(segs: seq<string>): Option<seq<string>> {
    match Resolve(segs, [])
    case None => None
    case Some(stack) => Some(stack + Trailing(segs))
  }

  // ---------------------------------------------------------------------
  // The right-to-left scan of the source, on segments
  // ---------------------------------------------------------------------

  /** `pending` is RemoveSegmentCount; `out` are the segments from LastSegment on. */
  datatype ScanState = ScanState(pending: nat, out: seq<string>)

  function ScanStep(seg: string, st: ScanState): ScanState {
    if KindOf(seg).Up? then st.(pending := st.pending + 1)
    else
      var pending := if st.pending == 0 && KindOf(seg).Skip? then 1 else st.pending;
      if pending > 0 then ScanState(pending - 1, if st.out == [] then [""] else st.out)
      else ScanState(0, [seg] + st.out)
  }

  function Scan(segs: seq<string>): ScanState {
    if segs == [] then ScanState(0, []) else ScanStep(segs[0], Scan(segs[1..]))
  }

  function Collapse(segs: seq<string>): Option<seq<string>> {
    var st := Scan(segs);
    if st.pending == 0 then Some(st.out) else None
  }

  /** What the code does to a whole path: the text before the first separator is never touched. */
  function CollapseString(s: string, sep: char): Option<string> {
    var segs := Segments(s, sep);
    match Collapse(segs[1..])
    case None => None
    case Some(out) => Some(Join([segs[0]] + out, sep))
  }

  /** Some `.` or empty segment is reached while a `..` to its right is still unmatched, so the
      scan takes it for the parent directory. */
  predicate ScanSwallows(segs: seq<string>) {
    segs != [] && ((KindOf(segs[0]).Skip? && Scan(segs[1..]).pending > 0) || ScanSwallows(segs[1..]))
  }

  // ---------------------------------------------------------------------
  // The same by counting segments
  // ---------------------------------------------------------------------

  /** How many more `..` than other segments there are. */
  function Excess(segs: seq<string>): int {
    if segs == [] then 0 else (if KindOf(segs[0]).Up? then 1 else -1) + Excess(segs[1..])
  }

  /** Somewhere from the left the `..` outnumber all other segments. */
  ghost predicate Overdrawn(segs: seq<string>) {
    exists i :: 0 <= i <= |segs| && Excess(segs[..i]) > 0
  }

  /** Some `.` or empty segment is followed by more `..` than it is by other segments. */
  ghost predicate Swallows(segs: seq<string>) {
    exists i :: 0 <= i < |segs| && KindOf(segs[i]).Skip? && Overdrawn(segs[i + 1..])
  }

  lemma PrefixTail(segs: seq<string>, i: nat)
    requires 0 < i <= |segs|
    ensures segs[..i] != [] && segs[..i][0] == segs[0] && segs[..i][1..] == segs[1..][..i - 1]
  {
  }

  lemma {:induction false} ExcessIsBounded(segs: seq<string>, i: nat)
    requires i <= |segs|
    ensures Excess(segs[..i]) <= Scan(segs).pending
  {
    hide KindOf;
    if i > 0 {
      ExcessIsBounded(segs[1..], i - 1);
      PrefixTail(segs, i);
    }
  }

  lemma {:induction false} ExcessIsReached(segs: seq<string>) returns (i: nat)
    ensures i <= |segs| && Excess(segs[..i]) == Scan(segs).pending
  {
    hide KindOf;
    i := 0;
    if segs != [] && Scan(segs).pending > 0 {
      var j := ExcessIsReached(segs[1..]);
      i := j + 1;
      PrefixTail(segs, i);
    }
  }

  /** The code fails exactly when somewhere from the left the `..` outnumber all other segments. */
  lemma FailsExactlyWhenOverdrawn(segs: seq<string>)
    ensures Collapse(segs).None? <==> Overdrawn(segs)
    ensures Scan(segs).pending > 0 <==> Overdrawn(segs)
  {
    hide Scan, Excess;
    var i := ExcessIsReached(segs);
    if Overdrawn(segs) {
      var j :| 0 <= j <= |segs| && Excess(segs[..j]) > 0;
      ExcessIsBounded(segs, j);
    }
  }

  lemma {:induction false} SwallowsByCounting(segs: seq<string>)
    ensures ScanSwallows(segs) <==> Swallows(segs)
  {
    hide KindOf, Scan, Overdrawn;
    if segs != [] {
      var rest := segs[1..];
      SwallowsByCounting(rest);
      FailsExactlyWhenOverdrawn(rest);
      forall i | 0 < i < |segs|
        ensures segs[i] == rest[i - 1] && segs[i + 1..] == rest[i..]
      {
      }
      if Swallows(rest) {
        var j :| 0 <= j < |rest| && KindOf(rest[j]).Skip? && Overdrawn(rest[j + 1..]);
        assert segs[j + 1] == rest[j] && segs[j + 2..] == rest[j + 1..];
      }
      if KindOf(segs[0]).Skip? && Overdrawn(rest) {
        assert segs[0 + 1..] == rest;
      }
    }
  }

  // ---------------------------------------------------------------------
  // Scan against the stack
  // ---------------------------------------------------------------------

  /** The output of a scan without its trailing empty segment. */
  function Kept(segs: seq<string>): seq<string> {
    if segs == [] then []
    else if KindOf(segs[0]).Name? && Scan(segs[1..]).pending == 0 then [segs[0]] + Kept(segs[1..])
    else Kept(segs[1..])
  }

  lemma {:induction false} ScanOutput(segs: seq<string>)
    ensures Scan(segs).out == [] ==> Scan(segs).pending == |segs| && Kept(segs) == []
    ensures Scan(segs).out == [] && segs != [] ==> Trailing(segs) == [""]
    ensures Scan(segs).out != [] ==> Scan(segs).out == Kept(segs) + Trailing(segs)
  {
    if segs != [] {
      ScanOutput(segs[1..]);
      if |segs| > 1 {
        assert segs[1..][|segs| - 2] == segs[|segs| - 1];
      }
    }
  }

  lemma StackPop(stack: seq<string>, p: nat)
    ensures p < |stack| ==> stack[..|stack| - 1][..|stack| - 1 - p] == stack[..|stack| - (p + 1)]
  {
  }

  lemma StackPush(stack: seq<string>, seg: string, p: nat, kept: seq<string>)
    ensures p == 0 ==> (stack + [seg])[..|stack| + 1 - p] + kept == stack[..|stack|] + ([seg] + kept)
    ensures 0 < p <= |stack| + 1 ==> (stack + [seg])[..|stack| + 1 - p] == stack[..|stack| - (p - 1)]
  {
  }

  /** Without swallowing, the unmatched `..` pop that many parents and the kept segments follow. */
  lemma {:induction false} ResolveFromScan(segs: seq<string>, stack: seq<string>)
    requires !ScanSwallows(segs)
    ensures var p := Scan(segs).pending;
            Resolve(segs, stack) ==
            if p > |stack| then None else Some(stack[..|stack| - p] + Kept(segs))
  {
    hide KindOf;
    if segs == [] {
      assert stack[..|stack|] + Kept(segs) == stack;
    } else {
      var p := Scan(segs[1..]).pending;
      match KindOf(segs[0])
      case Up =>
        if stack != [] {
          ResolveFromScan(segs[1..], stack[..|stack| - 1]);
          StackPop(stack, p);
        }
      case Skip =>
        ResolveFromScan(segs[1..], stack);
      case Name =>
        ResolveFromScan(segs[1..], stack + [segs[0]]);
        StackPush(stack, segs[0], p, Kept(segs[1..]));
    }
  }

  /** A scan that ends with unmatched `..` means the stack underflows too, swallowing or not. */
  lemma {:induction false} PendingUnderflows(segs: seq<string>, stack: seq<string>)
    requires Scan(segs).pending > |stack|
    ensures Resolve(segs, stack).None?
  {
    hide KindOf;
    match KindOf(segs[0])
    case Up =>
      if stack != [] {
        PendingUnderflows(segs[1..], stack[..|stack| - 1]);
      }
    case Skip =>
      PendingUnderflows(segs[1..], stack);
    case Name =>
      PendingUnderflows(segs[1..], stack + [segs[0]]);
  }

  /** How many segments of each kind a path has; `swallowed` are those a pending `..` consumes. */
  function Net(segs: seq<string>): int {
    if segs == [] then 0
    else Net(segs[1..]) + (match KindOf(segs[0]) case Up => -1 case Skip => 0 case Name => 1)
  }

  function Swallowed(segs: seq<string>): nat {
    if segs == [] then 0
    else Swallowed(segs[1..]) + (if KindOf(segs[0]).Skip? && Scan(segs[1..]).pending > 0 then 1 else 0)
  }

  lemma {:induction false} CountSegments(segs: seq<string>)
    ensures |Kept(segs)| - Scan(segs).pending == Net(segs) + Swallowed(segs)
    ensures ScanSwallows(segs) <==> Swallowed(segs) > 0
  {
    if segs != [] {
      CountSegments(segs[1..]);
    }
  }

  lemma {:induction false} CountResolve(segs: seq<string>, stack: seq<string>)
    ensures Resolve(segs, stack).Some? ==> |Resolve(segs, stack).value| == |stack| + Net(segs)
  {
    hide KindOf;
    if segs != [] {
      match KindOf(segs[0])
      case Up =>
        if stack != [] {
          CountResolve(segs[1..], stack[..|stack| - 1]);
        }
      case Skip =>
        CountResolve(segs[1..], stack);
      case Name =>
        CountResolve(segs[1..], stack + [segs[0]]);
    }
  }

  lemma {:induction false} UnderflowsAt(segs: seq<string>, stack: seq<string>) returns (i: nat)
    requires Resolve(segs, stack).None?
    ensures i <= |segs| && Net(segs[..i]) + |stack| < 0
  {
    hide KindOf;
    if KindOf(segs[0]).Up? && stack == [] {
      i := 1;
      PrefixTail(segs, 1);
      assert Net(segs[1..][..0]) == 0;
    } else {
      var rest := segs[1..];
      match KindOf(segs[0]) {
        case Up => i := UnderflowsAt(rest, stack[..|stack| - 1]);
        case Skip => i := UnderflowsAt(rest, stack);
        case Name => i := UnderflowsAt(rest, stack + [segs[0]]);
      }
      i := i + 1;
      PrefixTail(segs, i);
    }
  }

  lemma {:induction false} NeverUnderflows(segs: seq<string>, stack: seq<string>, i: nat)
    requires Resolve(segs, stack).Some? && i <= |segs|
    ensures Net(segs[..i]) + |stack| >= 0
  {
    hide KindOf;
    if i > 0 {
      PrefixTail(segs, i);
      match KindOf(segs[0])
      case Up => NeverUnderflows(segs[1..], stack[..|stack| - 1], i - 1);
      case Skip => NeverUnderflows(segs[1..], stack, i - 1);
      case Name => NeverUnderflows(segs[1..], stack + [segs[0]], i - 1);
    }
  }

  /** The stack fails exactly when somewhere from the left the `..` outnumber the names. */
  lemma StackFailsExactlyWhenShort(segs: seq<string>)
    ensures Normalize(segs).None? <==> exists i :: 0 <= i <= |segs| && Net(segs[..i]) < 0
  {
    hide Resolve, Net;
    if Resolve(segs, []).None? {
      var i := UnderflowsAt(segs, []);
    } else if exists i :: 0 <= i <= |segs| && Net(segs[..i]) < 0 {
      var i :| 0 <= i <= |segs| && Net(segs[..i]) < 0;
      NeverUnderflows(segs, [], i);
    }
  }

  /** The scan agrees with the stack exactly on the paths where it swallows nothing or where it
      fails anyway: there both fail. */
  lemma CollapseMeetsStack(segs: seq<string>)
    ensures Collapse(segs) == Normalize(segs) <==> (Overdrawn(segs) || !Swallows(segs))
  {
    ScanOutput(segs);
    FailsExactlyWhenOverdrawn(segs);
    SwallowsByCounting(segs);
    hide Overdrawn, Swallows;
    if Scan(segs).pending > 0 {
      PendingUnderflows(segs, []);
    } else if !ScanSwallows(segs) {
      ResolveFromScan(segs, []);
      var stack: seq<string> := [];
      assert stack[..0] + Kept(segs) == Kept(segs);
      assert segs == [] ==> Kept(segs) + Trailing(segs) == [];
    } else {
      CountSegments(segs);
      CountResolve(segs, []);
    }
  }

  /** On paths without interior `.` or empty segments the collapser is the stack normaliser, and
      it fails exactly when some `..` has no parent. */
  lemma CollapseWithoutInteriorSkips(segs: seq<string>)
    requires forall i :: 0 <= i < |segs| - 1 ==> !KindOf(segs[i]).Skip?
    ensures Collapse(segs) == Normalize(segs)
    ensures Collapse(segs).None? <==> Resolve(segs, []).None?
  {
    hide KindOf;
    NoInteriorSkips(segs);
    CollapseMeetsStack(segs);
  }

  lemma {:induction false} NoInteriorSkips(segs: seq<string>)
    requires forall i :: 0 <= i < |segs| - 1 ==> !KindOf(segs[i]).Skip?
    ensures !Swallows(segs)
  {
    hide KindOf;
    assert segs[|segs|..] == [] && !Overdrawn([]);
  }

  // ---------------------------------------------------------------------
  // Shape of a successful result, and the second run
  // ---------------------------------------------------------------------

  /** Every segment is a name, except that the last one may be empty. */
  ghost predicate Clean(segs: seq<string>) {
    forall i :: 0 <= i < |segs| ==> KindOf(segs[i]).Name? || (i == |segs| - 1 && segs[i] == "")
  }

  lemma {:induction false} ScanIsClean(segs: seq<string>, sep: char)
    requires SepFree(segs, sep)
    ensures Clean(Scan(segs).out) && SepFree(Scan(segs).out, sep)
  {
    if segs != [] {
      ScanIsClean(segs[1..], sep);
      ScanOutput(segs[1..]);
    }
  }

  lemma {:induction false} ScanOfClean(segs: seq<string>)
    requires Clean(segs)
    ensures Scan(segs) == ScanState(0, segs)
  {
    if segs != [] {
      ScanOfClean(segs[1..]);
      assert segs == [segs[0]] + segs[1..];
      if !KindOf(segs[0]).Name? {
        assert segs[1..] == [] && segs == [""];
      }
    }
  }

  lemma {:induction false} SegmentsSepFree(s: string, sep: char)
    ensures SepFree(Segments(s, sep), sep)
    ensures NUL !in s ==> forall i :: 0 <= i < |Segments(s, sep)| ==> NUL !in Segments(s, sep)[i]
    decreases |s|
  {
    match LastIndex(s, sep)
    case None =>
    case Some(k) => SegmentsSepFree(s[..k], sep);
  }

  lemma {:induction false} LastIndexOf(left: string, right: string, sep: char)
    requires sep !in right
    ensures LastIndex(left + [sep] + right, sep) == Some(|left|)
  {
    hide LastIndex;
    var s := left + [sep] + right;
    assert s[|left|] == sep;
    assert forall i :: |left| < i < |s| ==> s[i] == right[i - |left| - 1];
    var k := LastIndex(s, sep).value;
    assert forall i :: k < i < |s| ==> s[i] == s[k + 1..][i - k - 1];
  }

  lemma {:induction false} JoinSnoc(segs: seq<string>, last: string, sep: char)
    requires segs != []
    ensures Join(segs + [last], sep) == Join(segs, sep) + [sep] + last
  {
    if |segs| == 1 {
      assert (segs + [last])[1..] == [last];
    } else {
      assert (segs + [last])[1..] == segs[1..] + [last];
      JoinSnoc(segs[1..], last, sep);
    }
  }

  lemma {:induction false} SegmentsOfJoin(segs: seq<string>, sep: char)
    requires segs != [] && SepFree(segs, sep)
    ensures Segments(Join(segs, sep), sep) == segs
  {
    var n := |segs|;
    if n > 1 {
      var front, last := segs[..n - 1], segs[n - 1];
      assert segs == front + [last];
      JoinSnoc(front, last, sep);
      var left := Join(front, sep);
      LastIndexOf(left, last, sep);
      assert (left + [sep] + last)[..|left|] == left;
      assert (left + [sep] + last)[|left| + 1..] == last;
      SegmentsOfJoin(front, sep);
    }
  }

  /** On success the segments after the first separator are names, except for an empty last one,
      and collapsing the result again changes nothing. */
  lemma CollapseIsIdempotent(s: string, sep: char)
    requires CollapseString(s, sep).Some?
    ensures var t := CollapseString(s, sep).value;
            && Clean(Segments(t, sep)[1..])
            && Segments(t, sep)[0] == Segments(s, sep)[0]
            && CollapseString(t, sep) == Some(t)
  {
    var segs := Segments(s, sep);
    SegmentsSepFree(s, sep);
    var out := Scan(segs[1..]).out;
    ScanIsClean(segs[1..], sep);
    var all := [segs[0]] + out;
    SegmentsOfJoin(all, sep);
    assert all[1..] == out;
    ScanOfClean(out);
  }

  /** The reference on whole paths. */
  function NormalizeString(s: string, sep: char): Option<string> {
    var segs := Segments(s, sep);
    match Normalize(segs[1..])
    case None => None
    case Some(out) => Some(Join([segs[0]] + out, sep))
  }

  lemma {:induction false} ResolveSepFree(segs: seq<string>, stack: seq<string>, sep: char)
    requires SepFree(segs, sep) && SepFree(stack, sep)
    ensures Resolve(segs, stack).Some? ==> SepFree(Resolve(segs, stack).value, sep)
  {
    hide KindOf;
    if segs != [] {
      match KindOf(segs[0])
      case Up =>
        if stack != [] {
          ResolveSepFree(segs[1..], stack[..|stack| - 1], sep);
        }
      case Skip =>
        ResolveSepFree(segs[1..], stack, sep);
      case Name =>
        ResolveSepFree(segs[1..], stack + [segs[0]], sep);
    }
  }

  lemma SwallowSegments()
    ensures Collapse(["a", ".", ".."]) == Some(["a", ""])
    ensures Normalize(["a", ".", ".."]) == Some([""])
  {
    var segs := ["a", ".", ".."];
    var kinds := KindOf("a").Name? && KindOf(".").Skip? && KindOf("..").Up?;
    assert kinds;
    hide KindOf;
    assert segs[1..] == [".", ".."] && [".", ".."][1..] == [".."] && [".."][1..] == [];
    assert Scan([".."]) == ScanState(1, []);
    assert Scan([".", ".."]) == ScanState(0, [""]);
    assert Resolve([".."], ["a"]) == Some([]);
    assert Resolve([".", ".."], ["a"]) == Some([]);
    assert [] + ["a"] == ["a"];
    var empty: seq<string> := [];
    assert Scan(segs) == ScanState(0, ["a", ""]);
    assert Resolve(segs, empty) == Some(empty);
    assert empty + Trailing(segs) == [""];
  }

  lemma JoinMore(first: string, segs: seq<string>, sep: char, joined: string)
    requires segs != [] && Join(segs, sep) == joined
    ensures Join([first] + segs, sep) == first + [sep] + joined
  {
    assert ([first] + segs)[1..] == segs;
  }

  lemma ExamplePaths()
    ensures Join(["", "a", ".", ".."], '/') == "/a/./.."
    ensures Join(["", "a", ""], '/') == "/a/" && Join(["", ""], '/') == "/"
    ensures SepFree(["", "a", ".", ".."], '/')
  {
    assert Join([".."], '/') == ".." && Join([""], '/') == "";
    hide Join;
    JoinMore(".", [".."], '/', "..");
    JoinMore("a", [".", ".."], '/', "./..");
    JoinMore("", ["a", ".", ".."], '/', "a/./..");
    JoinMore("a", [""], '/', "");
    JoinMore("", ["a", ""], '/', "a/");
    JoinMore("", [""], '/', "");
  }

  /** `/a/./..`: the `..` removes the `.`, so the code keeps `a` where the stack removes it. */
  lemma SwallowExample()
    ensures CollapseString("/a/./..", '/') == Some("/a/")
    ensures NormalizeString("/a/./..", '/') == Some("/")
  {
    hide Join, Segments, Collapse, Normalize;
    ExamplePaths();
    SegmentsOfJoin(["", "a", ".", ".."], '/');
    SwallowSegments();
    assert ["", "a", ".", ".."][1..] == ["a", ".", ".."];
    assert [""] + ["a", ""] == ["", "a", ""] && [""] + [""] == ["", ""];
  }

  /** The same equivalence for whole paths: the collapsed text is the normalised text. */
  lemma {:induction false} CollapseStringMeetsStack(s: string, sep: char)
    ensures var segs := Segments(s, sep)[1..];
            CollapseString(s, sep) == NormalizeString(s, sep) <==> (Overdrawn(segs) || !Swallows(segs))
  {
    hide Scan, Resolve, Segments, Join, Swallows, Overdrawn, Clean, KindOf;
    var head, segs := Segments(s, sep)[0], Segments(s, sep)[1..];
    SegmentsSepFree(s, sep);
    CollapseMeetsStack(segs);
    ScanIsClean(segs, sep);
    ResolveSepFree(segs, [], sep);
    var c, n := Collapse(segs), Normalize(segs);
    if c.Some? && n.Some? {
      SegmentsOfJoin([head] + c.value, sep);
      SegmentsOfJoin([head] + n.value, sep);
      assert ([head] + c.value)[1..] == c.value && ([head] + n.value)[1..] == n.value;
    }
  }

  lemma {:induction false} JoinOfSegments(s: string, sep: char)
    ensures Join(Segments(s, sep), sep) == s
    decreases |s|
  {
    match LastIndex(s, sep)
    case None =>
    case Some(k) =>
      JoinOfSegments(s[..k], sep);
      JoinSnoc(Segments(s[..k], sep), s[k + 1..], sep);
  }

  // ---------------------------------------------------------------------
  // The in-place loop
  // ---------------------------------------------------------------------

  /** The text at LastSegment. */
  ghost function Tail(out: seq<string>, sep: char): string {
    if out == [] then "" else Join(out, sep)
  }

  /** Loop invariant on the buffer: `remaining` characters are unread and still the original
      ones, and the collapsed tail starts at `last`, right behind a separator once nothing is
      pending. */
  ghost predicate BufferInv(buffer: seq<char>, original: seq<char>, path: string, sep: char,
                            remaining: nat, last: nat, tail: string, settled: bool)
  {
    var n := |path|;
    && remaining <= n < |buffer| == |original|
    && (forall i :: n < i < |buffer| ==> buffer[i] == original[i])
    && (forall i :: 0 <= i < remaining ==> buffer[i] == path[i])
    && HoldsAt(buffer, last, tail) && last + |tail| <= n
    && (if remaining == n then last == n else remaining < last && buffer[remaining] == sep)
    && (settled && remaining < n ==> last == remaining + 1)
  }

  /** Loop invariant on segments: `done` are the segments already read. */
  ghost predicate SegmentsInv(path: string, sep: char, remaining: nat, st: ScanState, done: seq<string>) {
    && remaining <= |path|
    && st == Scan(done)
    && (remaining == |path| <==> done == [])
    && Segments(path, sep) == Segments(path[..remaining], sep) + done
  }

  lemma {:induction false} SegmentsSnoc(left: string, seg: string, sep: char)
    requires sep !in seg
    ensures Segments(left + [sep] + seg, sep) == Segments(left, sep) + [seg]
  {
    hide LastIndex;
    LastIndexOf(left, seg, sep);
    var s := left + [sep] + seg;
    assert s[..|left|] == left && s[|left| + 1..] == seg;
  }

  lemma {:induction false} SegmentsInvStep(path: string, sep: char, remaining: nat, k: nat, st: ScanState, done: seq<string>)
    requires SegmentsInv(path, sep, remaining, st, done)
    requires k < remaining && path[k] == sep && sep !in path[k + 1..remaining]
    ensures var seg := path[k + 1..remaining];
            SegmentsInv(path, sep, k, ScanStep(seg, st), [seg] + done)
  {
    hide LastIndex, KindOf, Segments;
    var p, seg := path[..remaining], path[k + 1..remaining];
    assert p == path[..k] + [sep] + seg;
    SegmentsSnoc(path[..k], seg, sep);
    assert ([seg] + done)[1..] == done;
    assert Segments(path[..k], sep) + [seg] + done == Segments(path[..k], sep) + ([seg] + done);
  }

  /** A `..`: only the counter changes. */
  lemma BufferInvParent(buffer: seq<char>, original: seq<char>, path: string, sep: char,
                        remaining: nat, last: nat, tail: string, settled: bool, k: nat)
    requires BufferInv(buffer, original, path, sep, remaining, last, tail, settled)
    requires k < remaining && path[k] == sep
    ensures BufferInv(buffer, original, path, sep, k, last, tail, false)
  {
  }

  /** A segment that stays where it is. */
  lemma BufferInvKeep(buffer: seq<char>, original: seq<char>, path: string, sep: char,
                      remaining: nat, last: nat, tail: string, k: nat)
    requires BufferInv(buffer, original, path, sep, remaining, last, tail, true)
    requires NUL !in path && k < remaining && path[k] == sep
    ensures var seg := path[k + 1..remaining];
            BufferInv(buffer, original, path, sep, k, k + 1,
                      if remaining == |path| then seg else seg + [sep] + tail, true)
  {
    var seg := path[k + 1..remaining];
    assert sep != NUL;
    var tail' := if remaining == |path| then seg else seg + [sep] + tail;
    forall i | 0 <= i < |tail'|
      ensures tail'[i] == buffer[k + 1 + i] && tail'[i] != NUL
    {
      if i < |seg| {
        assert seg[i] == path[k + 1 + i];
      } else if i > |seg| {
        assert tail'[i] == tail[i - |seg| - 1];
      }
    }
  }

  /** A segment that goes away: the tail moves down over it and over the `..` behind it. */
  lemma BufferInvRemove(buffer: seq<char>, moved: seq<char>, original: seq<char>, path: string, sep: char,
                        remaining: nat, last: nat, tail: string, settled: bool, k: nat)
    requires BufferInv(buffer, original, path, sep, remaining, last, tail, settled)
    requires k < remaining && path[k] == sep
    requires k < last <= |path| < |buffer| && moved == Moved(buffer, k + 1, last, |path| - last + 1)
    ensures BufferInv(moved, original, path, sep, k, k + 1, tail, true)
  {
    var n, len := |path|, |path| - last + 1;
    assert forall i :: 0 <= i <= k ==> moved[i] == buffer[i];
    assert forall i :: k + 1 <= i < k + 1 + len ==> moved[i] == buffer[last + (i - (k + 1))];
    assert forall i :: k + 1 + len <= i < |buffer| ==> moved[i] == buffer[i];
  }

  /** The text at LastSegment, in terms of the scan. */
  lemma TailStep(seg: string, done: seq<string>, sep: char)
    ensures var st := Scan(done);
            var tail := Tail(ScanStep(seg, st).out, sep);
            && (!KindOf(seg).Up? && (st.pending > 0 || KindOf(seg).Skip?) ==> tail == Tail(st.out, sep))
            && (KindOf(seg).Name? && st.pending == 0 ==>
                  tail == if done == [] then seg else seg + [sep] + Tail(st.out, sep))
  {
    ScanOutput(done);
    var st := Scan(done);
    assert ([seg] + st.out)[1..] == st.out;
  }

  lemma HeadAndTail(buffer: seq<char>, original: seq<char>, path: string, sep: char,
                    remaining: nat, last: nat, tail: string)
    requires NUL !in path && sep in path && remaining < |path|
    requires BufferInv(buffer, original, path, sep, remaining, last, tail, true)
    ensures HoldsAt(buffer, 0, path[..remaining] + [sep] + tail)
  {
    var whole := path[..remaining] + [sep] + tail;
    forall i | 0 <= i < |whole|
      ensures whole[i] == buffer[i] && whole[i] != NUL
    {
      if i > remaining {
        assert whole[i] == tail[i - remaining - 1];
      }
    }
  }

  /** When the scan stops, the buffer holds the collapsed path unless some `..` is left over. */
  lemma BufferInvDone(buffer: seq<char>, original: seq<char>, path: string, sep: char,
                      remaining: nat, last: nat, st: ScanState, done: seq<string>)
    requires HoldsAt(original, 0, path)
    requires NUL !in path && SegmentsInv(path, sep, remaining, st, done)
    requires BufferInv(buffer, original, path, sep, remaining, last, Tail(st.out, sep), st.pending == 0)
    requires sep !in path[..remaining]
    ensures CollapseString(path, sep).None? <==> st.pending > 0
    ensures st.pending == 0 ==> HoldsAt(buffer, 0, CollapseString(path, sep).value)
  {
    var head := path[..remaining];
    assert Segments(head, sep) == [head];
    assert Segments(path, sep)[0] == head && Segments(path, sep)[1..] == done;
    if st.pending == 0 {
      ScanOutput(done);
      if done == [] {
        assert [head] + st.out == [head] && head == path;
      } else {
        var all := [head] + st.out;
        assert all[1..] == st.out;
        var tail := Tail(st.out, sep);
        assert CollapseString(path, sep).value == head + [sep] + tail;
        SegmentsNoSep(path, sep);
        HeadAndTail(buffer, original, path, sep, remaining, last, tail);
      }
    }
  }

  lemma SegmentsNoSep(path: string, sep: char)
    ensures sep !in path ==> |Segments(path, sep)| == 1
  {
  }

  /** The whole loop invariant; `count` is RemoveSegmentCount. */
  ghost predicate ScanInv(buffer: seq<char>, original: seq<char>, path: string, sep: char,
                          remaining: int, last: int, count: int, done: seq<string>)
  {
    var st := Scan(done);
    && NUL !in path && 0 <= remaining && 0 <= last && count == st.pending
    && SegmentsInv(path, sep, remaining, st, done)
    && BufferInv(buffer, original, path, sep, remaining, last, Tail(st.out, sep), st.pending == 0)
  }

  lemma ScanInvInit(buffer: seq<char>, path: string, sep: char)
    requires HoldsAt(buffer, 0, path)
    ensures ScanInv(buffer, buffer, path, sep, |path|, |path|, 0, [])
  {
    assert path[..|path|] == path;
    assert Segments(path, sep) + [] == Segments(path, sep);
  }

  lemma ScanInvBounds(buffer: seq<char>, original: seq<char>, path: string, sep: char,
                      remaining: int, last: int, count: int, done: seq<string>)
    requires ScanInv(buffer, original, path, sep, remaining, last, count, done)
    ensures 0 <= remaining <= last <= |path| < |buffer| && 0 <= count
    ensures NUL !in path
  {
  }

  /** The segment found by `memrchr` is a segment of the original path. */
  lemma ScanInvSegment(buffer: seq<char>, original: seq<char>, path: string, sep: char,
                       remaining: int, last: int, count: int, done: seq<string>, k: nat)
    requires ScanInv(buffer, original, path, sep, remaining, last, count, done)
    requires k < remaining && buffer[k] == sep && sep !in buffer[k + 1..remaining]
    ensures path[k] == sep && buffer[k + 1..remaining] == path[k + 1..remaining]
  {
  }

  lemma ScanInvParent(buffer: seq<char>, original: seq<char>, path: string, sep: char,
                      remaining: int, last: int, count: int, done: seq<string>, k: nat)
    requires ScanInv(buffer, original, path, sep, remaining, last, count, done)
    requires k < remaining && buffer[k] == sep && sep !in buffer[k + 1..remaining]
    requires KindOf(buffer[k + 1..remaining]).Up?
    ensures ScanInv(buffer, original, path, sep, k, last, count + 1, [buffer[k + 1..remaining]] + done)
  {
    ScanInvSegment(buffer, original, path, sep, remaining, last, count, done, k);
    var st := Scan(done);
    SegmentsInvStep(path, sep, remaining, k, st, done);
    BufferInvParent(buffer, original, path, sep, remaining, last, Tail(st.out, sep), count == 0, k);
  }

  lemma ScanInvKeep(buffer: seq<char>, original: seq<char>, path: string, sep: char,
                    remaining: int, last: int, done: seq<string>, k: nat)
    requires ScanInv(buffer, original, path, sep, remaining, last, 0, done)
    requires k < remaining && buffer[k] == sep && sep !in buffer[k + 1..remaining]
    requires KindOf(buffer[k + 1..remaining]).Name?
    ensures ScanInv(buffer, original, path, sep, k, k + 1, 0, [buffer[k + 1..remaining]] + done)
  {
    ScanInvSegment(buffer, original, path, sep, remaining, last, 0, done, k);
    var st := Scan(done);
    SegmentsInvStep(path, sep, remaining, k, st, done);
    TailStep(path[k + 1..remaining], done, sep);
    BufferInvKeep(buffer, original, path, sep, remaining, last, Tail(st.out, sep), k);
  }

  lemma ScanInvRemove(buffer: seq<char>, moved: seq<char>, original: seq<char>, path: string, sep: char,
                      remaining: int, last: int, count: int, done: seq<string>, k: nat)
    requires ScanInv(buffer, original, path, sep, remaining, last, count, done)
    requires k < remaining && buffer[k] == sep && sep !in buffer[k + 1..remaining]
    requires var kind := KindOf(buffer[k + 1..remaining]); !kind.Up? && (count > 0 || kind.Skip?)
    requires k < last <= |path| < |buffer| && moved == Moved(buffer, k + 1, last, |path| - last + 1)
    ensures ScanInv(moved, original, path, sep, k, k + 1, if count == 0 then 0 else count - 1,
                    [buffer[k + 1..remaining]] + done)
  {
    ScanInvSegment(buffer, original, path, sep, remaining, last, count, done, k);
    var st := Scan(done);
    SegmentsInvStep(path, sep, remaining, k, st, done);
    TailStep(path[k + 1..remaining], done, sep);
    BufferInvRemove(buffer, moved, original, path, sep, remaining, last, Tail(st.out, sep), count == 0, k);
  }

  lemma ScanInvDone(buffer: seq<char>, original: seq<char>, path: string, sep: char,
                    remaining: int, last: int, count: int, done: seq<string>)
    requires HoldsAt(original, 0, path)
    requires ScanInv(buffer, original, path, sep, remaining, last, count, done)
    requires sep !in buffer[..remaining]
    ensures CollapseString(path, sep).Some? <==> count == 0
    ensures count == 0 ==> HoldsAt(buffer, 0, CollapseString(path, sep).value)
    ensures |buffer| == |original| && forall i :: |path| < i < |buffer| ==> buffer[i] == original[i]
  {
    BufferInvDone(buffer, original, path, sep, remaining, last, Scan(done), done);
  }

  lemma PathFailsExactlyWhenOverdrawn(path: string, sep: char)
    ensures CollapseString(path, sep).None? <==> Overdrawn(Segments(path, sep)[1..])
  {
    FailsExactlyWhenOverdrawn(Segments(path, sep)[1..]);
  }

  lemma ErrnoIsPositive()
    ensures EINVAL > 0
  {
  }

  /** The source's character tests on a segment, as tests on its text. */
  lemma SegmentText(buffer: seq<char>, from: nat, to: nat)
    requires from <= to <= |buffer|
    ensures var seg := buffer[from..to];
            && (KindOf(seg).Up? <==> to - from == 2 && buffer[from] == '.' && buffer[from + 1] == '.')
            && (KindOf(seg).Skip? <==> to - from == 0 || (to - from == 1 && buffer[from] == '.'))
  {
  }

  /** One segment: the text between the separator at `k` and `remaining`. */
  method ReadSegment(buffer: array<char>, sep: char, pathLength: nat, remaining: nat,
                     lastSegment: nat, removeSegmentCount: nat, k: nat,
                     ghost original: seq<char>, ghost path: string, ghost done: seq<string>)
    returns (last: nat, count: nat)
    requires ScanInv(buffer[..], original, path, sep, remaining, lastSegment, removeSegmentCount, done)
    requires pathLength == |path| && k < remaining <= buffer.Length
    requires buffer[..][k] == sep && sep !in buffer[..][k + 1..remaining]
    modifies buffer
    ensures ScanInv(buffer[..], original, path, sep, k, last, count, [old(buffer[..])[k + 1..remaining]] + done)
  {
    hide *;
    ghost var before := buffer[..];
    ScanInvBounds(before, original, path, sep, remaining, lastSegment, removeSegmentCount, done);
    last, count := lastSegment, removeSegmentCount;
    var segment := k + 1;
    var segmentLength := remaining - segment;
    SegmentText(before, segment, remaining);
    if segmentLength == 2 && buffer[segment] == '.' && buffer[segment + 1] == '.' {
      ScanInvParent(before, original, path, sep, remaining, lastSegment, removeSegmentCount, done, k);
      count := count + 1;
    } else {
      if count == 0 && (segmentLength == 0 || (segmentLength == 1 && buffer[segment] == '.')) {
        count := count + 1;
      }
      if count > 0 {
        MemMove(buffer, segment, lastSegment, pathLength - lastSegment + 1);
        ScanInvRemove(before, buffer[..], original, path, sep, remaining, lastSegment, removeSegmentCount, done, k);
        count := count - 1;
      } else {
        ScanInvKeep(before, original, path, sep, remaining, lastSegment, done, k);
      }
      last := segment;
    }
  }

  /** CollapsePath of wslpath.cpp. The buffer is changed in place, never past its terminator. */
  method CollapseInPlace(buffer: array<char>, sep: char, ghost path: string) returns (result: int)
    requires HoldsAt(buffer[..], 0, path)
    modifies buffer
    ensures result == 0 || result == -EINVAL
    ensures result == 0 <==> CollapseString(path, sep).Some?
    ensures result == -EINVAL <==> Overdrawn(Segments(path, sep)[1..])
    ensures result == 0 ==> HoldsAt(buffer[..], 0, CollapseString(path, sep).value)
    ensures forall i :: |path| < i < buffer.Length ==> buffer[i] == old(buffer[i])
  {
    hide *;
    var pathLength := StrLen(buffer, path);
    var lastSegment := pathLength;
    var removeSegmentCount := 0;
    var remaining := pathLength;
    ghost var original := buffer[..];
    ghost var done: seq<string> := [];
    ScanInvInit(original, path, sep);
    while remaining > 0
      invariant 0 <= remaining && 0 <= lastSegment && 0 <= removeSegmentCount
      invariant ScanInv(buffer[..], original, path, sep, remaining, lastSegment, removeSegmentCount, done)
      decreases remaining
    {
      ScanInvBounds(buffer[..], original, path, sep, remaining, lastSegment, removeSegmentCount, done);
      var next := MemRChr(buffer, sep, remaining);
      if next.None? {
        break;
      }
      ghost var seg := buffer[..][next.value + 1..remaining];
      lastSegment, removeSegmentCount := ReadSegment(buffer, sep, pathLength, remaining, lastSegment,
                                                     removeSegmentCount, next.value, original, path, done);
      remaining, done := next.value, [seg] + done;
    }
    ScanInvBounds(buffer[..], original, path, sep, remaining, lastSegment, removeSegmentCount, done);
    ScanInvDone(buffer[..], original, path, sep, remaining, lastSegment, removeSegmentCount, done);
    assert forall i :: |path| < i < buffer.Length ==> buffer[..][i] == original[i];
    ErrnoIsPositive();
    PathFailsExactlyWhenOverdrawn(path, sep);
    result := if removeSegmentCount == 0 then 0 else -EINVAL;
  }
}
