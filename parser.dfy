/**
 * The instance reader of SetCover.__init__. A file is given as its lines, each
 * already split on whitespace and converted to integers. Line 0 holds m and n;
 * the weights phase reads every token of each following line until at least n
 * weights are present; the membership phase then treats a line of exactly one
 * token as a group separator and appends the tokens of any other line to the
 * current group; the last group is appended when the lines run out.
 */
module Parser {
  import opened Wrappers
  import opened Seqs

  /** What the constructor stores: m, n, the weight list `sets` and the list of groups `elements`. */
  datatype Instance = Instance(m: int, n: int, weights: seq<int>, elements: seq<seq<int>>)

  /** The three lists the reading loop updates. */
  datatype ParseState = ParseState(sets: seq<int>, elements: seq<seq<int>>, temp: seq<int>)

  const Start := ParseState([], [], [])

  predicate IsSeparator(line: seq<int>)
  {
    |line| == 1
  }

  /** One turn of the reading loop. */
  function Step(n: int, st: ParseState, line: seq<int>): (r: ParseState)
    ensures st.sets <= r.sets && st.elements <= r.elements
    ensures |st.sets| >= n ==> r.sets == st.sets
    ensures forall k :: |st.elements| <= k < |r.elements| ==> r.elements[k] != []
  {
    if |st.sets| < n then st.(sets := st.sets + line)
    else if IsSeparator(line) then
      (if st.temp != [] then ParseState(st.sets, st.elements + [st.temp], []) else st)
    else st.(temp := st.temp + line)
  }

  /** The reading loop run over the remaining lines. */
  function Run(n: int, st: ParseState, lines: seq<seq<int>>): (r: ParseState)
    ensures st.sets <= r.sets && st.elements <= r.elements
    ensures |st.sets| >= n ==> r.sets == st.sets
    ensures forall k :: |st.elements| <= k < |r.elements| ==> r.elements[k] != []
    decreases |lines|
  {
    if lines == [] then st else Run(n, Step(n, st, lines[0]), lines[1..])
  }

  // ---------------------------------------------------------------------------
  // Reference description of the result, independent of the loop

  /** How many lines the weights phase consumes while `need` more weights are wanted. */
  function WeightLines(need: int, body: seq<seq<int>>): (j: nat)
    ensures j <= |body|
  {
    if body == [] || need <= 0 then 0 else 1 + WeightLines(need - |body[0]|, body[1..])
  }

  /** The membership lines cut at every separator line; each piece is the tokens between two separators. */
  function Segments(ls: seq<seq<int>>): (s: seq<seq<int>>)
    ensures |s| >= 1
  {
    if ls == [] then [[]]
    else
      var rest := Segments(ls[1..]);
      if IsSeparator(ls[0]) then [[]] + rest else [ls[0] + rest[0]] + rest[1..]
  }

  /** The non-empty entries of s, in order. */
  function NonEmpty(s: seq<seq<int>>): (r: seq<seq<int>>)
    ensures |r| <= |s|
    ensures forall k :: 0 <= k < |r| ==> r[k] != []
  {
    if s == [] then [] else (if s[0] == [] then [] else [s[0]]) + NonEmpty(s[1..])
  }

  /** Drops the empty pieces except the last one. */
  function KeepLast(s: seq<seq<int>>): seq<seq<int>>
    requires |s| >= 1
  {
    NonEmpty(s[..|s| - 1]) + [s[|s| - 1]]
  }

  /** Glues pending tokens t in front of the first piece. */
  function Absorb(t: seq<int>, s: seq<seq<int>>): seq<seq<int>>
    requires |s| >= 1
  {
    [t + s[0]] + s[1..]
  }

  /**
   * The groups the membership phase produces: every group that a separator
   * closes is non-empty, and there is always one more, possibly empty, group.
   */
  function Groups(ls: seq<seq<int>>): (g: seq<seq<int>>)
    ensures 1 <= |g| <= |Segments(ls)|
    ensures forall k :: 0 <= k < |g| - 1 ==> g[k] != []
    ensures g[|g| - 1] == Segments(ls)[|Segments(ls)| - 1]
  {
    KeepLast(Segments(ls))
  }

  /** The tokens of the lines that are not separators, in input order. */
  function MemberTokens(ls: seq<seq<int>>): seq<int>
  {
    if ls == [] then [] else (if IsSeparator(ls[0]) then [] else ls[0]) + MemberTokens(ls[1..])
  }

  function SeparatorCount(ls: seq<seq<int>>): nat
  {
    if ls == [] then 0 else (if IsSeparator(ls[0]) then 1 else 0) + SeparatorCount(ls[1..])
  }

  /** What reading `lines` yields: None when line 0 has fewer than two tokens. */
  function ParseSpec(lines: seq<seq<int>>): (r: Option<Instance>)
    requires |lines| > 0
    ensures r.None? <==> |lines[0]| < 2
    ensures r.Some? ==> r.value.m == lines[0][0] && r.value.n == lines[0][1]
    ensures r.Some? ==> |r.value.weights| >= r.value.n || r.value.weights == Flatten(lines[1..])
    ensures r.Some? ==> |r.value.elements| >= 1
    ensures r.Some? ==> forall k :: 0 <= k < |r.value.elements| - 1 ==> r.value.elements[k] != []
  {
    if |lines[0]| < 2 then None
    else
      var n := lines[0][1];
      var body := lines[1..];
      var j := WeightLines(n, body);
      WeightLinesSpec(n, body);
      assert j == |body| ==> body[..j] == body;
      Some(Instance(lines[0][0], n, Flatten(body[..j]), Groups(body[j..])))
  }

  // ---------------------------------------------------------------------------
  // The reading loop

  /**
   * SetCover.__init__ from the point where the file has been split into lines.
   * The file text always splits into at least one line.
   */
  method Parse(lines: seq<seq<int>>) returns (r: Option<Instance>)
    requires |lines| > 0
    ensures r == ParseSpec(lines)
    ensures r.None? <==> |lines[0]| < 2
    ensures r.Some? ==> r.value.m == lines[0][0] && r.value.n == lines[0][1]
  {
    var firstLine := lines[0];
    if |firstLine| < 2 {
      return None;
    }
    var m := firstLine[0];
    var n := firstLine[1];
    var sets: seq<int> := [];
    var elements: seq<seq<int>> := [];
    var temp: seq<int> := [];
    var i := 1;
    while i < |lines|
      invariant 1 <= i <= |lines|
      invariant Run(n, ParseState(sets, elements, temp), lines[i..]) == Run(n, Start, lines[1..])
    {
      var line := lines[i];
      ghost var before := ParseState(sets, elements, temp);
      if |sets| < n {
        var k := 0;
        while k < |line|
          invariant 0 <= k <= |line|
          invariant sets == before.sets + line[..k]
        {
          sets := sets + [line[k]];
          k := k + 1;
        }
        assert line[..|line|] == line;
      } else if |line| == 1 {
        if |temp| != 0 {
          elements := elements + [temp];
          temp := [];
        }
      } else {
        var k := 0;
        while k < |line|
          invariant 0 <= k <= |line|
          invariant temp == before.temp + line[..k]
        {
          temp := temp + [line[k]];
          k := k + 1;
        }
        assert line[..|line|] == line;
      }
      assert ParseState(sets, elements, temp) == Step(n, before, line);
      assert lines[i..][0] == line && lines[i..][1..] == lines[i + 1..];
      i := i + 1;
    }
    assert lines[i..] == [];
    ParseMachineMatchesSpec(n, lines[1..]);
    r := Some(Instance(m, n, sets, elements + [temp]));
  }

  // ---------------------------------------------------------------------------
  // The loop agrees with the reference description

  /**
   * The weights phase stops at the first line that brings the count to at
   * least `need` (so it may overshoot), and before that line the count is short.
   */
  lemma {:induction false} WeightLinesSpec(need: int, body: seq<seq<int>>)
    ensures var j := WeightLines(need, body);
      && (forall i :: 0 <= i < j ==> |Flatten(body[..i])| < need)
      && (j < |body| ==> |Flatten(body[..j])| >= need)
  {
    if body != [] && need > 0 {
      var b0 := body[0];
      var j := WeightLines(need, body);
      WeightLinesSpec(need - |b0|, body[1..]);
      forall i | 0 <= i < j ensures |Flatten(body[..i])| < need {
        if i > 0 {
          FlattenPrefix(body, i);
        }
      }
      if j < |body| {
        FlattenPrefix(body, j);
      }
    }
  }

  /** During the weights phase every token of every line goes to `sets`, in order. */
  lemma {:induction false} RunWeights(n: int, s: seq<int>, body: seq<seq<int>>)
    decreases |body|
    ensures var j := WeightLines(n - |s|, body);
      Run(n, ParseState(s, [], []), body) == Run(n, ParseState(s + Flatten(body[..j]), [], []), body[j..])
  {
    var j := WeightLines(n - |s|, body);
    if body == [] || n - |s| <= 0 {
      assert body[..j] == [] && body[j..] == body;
      assert s + Flatten(body[..j]) == s;
    } else {
      var b0 := body[0];
      assert Step(n, ParseState(s, [], []), b0) == ParseState(s + b0, [], []);
      RunWeights(n, s + b0, body[1..]);
      FlattenPrefix(body, j);
      assert body[1..][j - 1..] == body[j..];
      assert s + b0 + Flatten(body[1..][..j - 1]) == s + Flatten(body[..j]);
    }
  }

  lemma AbsorbNothing(s: seq<seq<int>>)
    requires |s| >= 1
    ensures Absorb([], s) == s
  {
    assert [] + s[0] == s[0];
  }

  lemma KeepLastCons(t: seq<int>, s: seq<seq<int>>)
    requires |s| >= 1
    ensures KeepLast([t] + s) == (if t != [] then [t] else []) + KeepLast(s)
  {
    var ts := [t] + s;
    assert ts[..|ts| - 1] == [t] + s[..|s| - 1];
    assert ([t] + s[..|s| - 1])[1..] == s[..|s| - 1];
    assert ts[|ts| - 1] == s[|s| - 1];
  }

  /** The groups still to come from state st and lines ls. */
  function Pending(st: ParseState, ls: seq<seq<int>>): seq<seq<int>>
  {
    st.elements + KeepLast(Absorb(st.temp, Segments(ls)))
  }

  lemma SeparatorStep(n: int, st: ParseState, l: seq<int>, rest: seq<seq<int>>)
    requires |st.sets| >= n && IsSeparator(l)
    ensures Step(n, st, l).sets == st.sets
    ensures Pending(Step(n, st, l), rest) == Pending(st, [l] + rest)
  {
    var s' := Segments(rest);
    assert ([l] + rest)[0] == l && ([l] + rest)[1..] == rest;
    assert Segments([l] + rest) == [[]] + s';
    assert ([[]] + s')[0] == [] && ([[]] + s')[1..] == s';
    assert st.temp + [] == st.temp;
    assert Absorb(st.temp, [[]] + s') == [st.temp] + s';
    KeepLastCons(st.temp, s');
    AbsorbNothing(s');
  }

  lemma TokenStep(n: int, st: ParseState, l: seq<int>, rest: seq<seq<int>>)
    requires |st.sets| >= n && !IsSeparator(l)
    ensures Step(n, st, l).sets == st.sets
    ensures Pending(Step(n, st, l), rest) == Pending(st, [l] + rest)
  {
    var s' := Segments(rest);
    assert ([l] + rest)[0] == l && ([l] + rest)[1..] == rest;
    var x := [l + s'[0]] + s'[1..];
    assert Segments([l] + rest) == x;
    assert x[0] == l + s'[0] && x[1..] == s'[1..];
    assert st.temp + (l + s'[0]) == (st.temp + l) + s'[0];
    assert Absorb(st.temp, x) == Absorb(st.temp + l, s');
  }

  /**
   * Once the weights are complete, `sets` no longer changes and the groups
   * closed so far together with the pending group follow the pieces between
   * separators, the pending tokens glued to the first piece.
   */
  lemma {:induction false} RunMembership(n: int, st: ParseState, ls: seq<seq<int>>)
    requires ls == [] || |st.sets| >= n
    ensures Run(n, st, ls).sets == st.sets
    ensures Run(n, st, ls).elements + [Run(n, st, ls).temp] == Pending(st, ls)
    decreases |ls|
  {
    if ls == [] {
      var one: seq<seq<int>> := [[]];
      assert st.temp + [] == st.temp && one[1..] == [];
      assert Absorb(st.temp, [[]]) == [st.temp];
      assert KeepLast([st.temp]) == [st.temp];
    } else {
      var l, rest := ls[0], ls[1..];
      assert ls == [l] + rest;
      if IsSeparator(l) {
        SeparatorStep(n, st, l, rest);
      } else {
        TokenStep(n, st, l, rest);
      }
      RunMembership(n, Step(n, st, l), rest);
    }
  }

  /** The reading loop computes exactly the reference description. */
  lemma ParseMachineMatchesSpec(n: int, body: seq<seq<int>>)
    ensures var f := Run(n, Start, body);
      var j := WeightLines(n, body);
      f.sets == Flatten(body[..j]) && f.elements + [f.temp] == Groups(body[j..])
  {
    var j := WeightLines(n, body);
    var weights := Flatten(body[..j]);
    var mid := ParseState(weights, [], []);
    assert Run(n, Start, body) == Run(n, mid, body[j..]) by {
      RunWeights(n, [], body);
      assert [] + weights == weights;
    }
    assert body[j..] == [] || |weights| >= n by {
      WeightLinesSpec(n, body);
    }
    RunMembership(n, mid, body[j..]);
    var segs := Segments(body[j..]);
    AbsorbNothing(segs);
    assert Pending(mid, body[j..]) == [] + KeepLast(segs);
    assert [] + KeepLast(segs) == Groups(body[j..]);
  }

  // ---------------------------------------------------------------------------
  // Properties of the groups

  lemma {:induction false} FlattenNonEmpty(s: seq<seq<int>>)
    ensures Flatten(NonEmpty(s)) == Flatten(s)
  {
    if s != [] {
      FlattenNonEmpty(s[1..]);
      FlattenAppend(if s[0] == [] then [] else [s[0]], NonEmpty(s[1..]));
      assert Flatten([s[0]]) == s[0] + Flatten([]);
    }
  }

  lemma {:induction false} FlattenSegments(ls: seq<seq<int>>)
    ensures Flatten(Segments(ls)) == MemberTokens(ls)
  {
    if ls != [] {
      var rest := Segments(ls[1..]);
      FlattenSegments(ls[1..]);
      if !IsSeparator(ls[0]) {
        assert Flatten(rest) == rest[0] + Flatten(rest[1..]);
        assert ([ls[0] + rest[0]] + rest[1..])[1..] == rest[1..];
      } else {
        assert ([[]] + rest)[1..] == rest;
      }
    }
  }

  /**
   * The concatenation of the groups is exactly the tokens of the non-separator
   * lines, in input order: a separator's own token is discarded.
   */
  lemma GroupsFlatten(ls: seq<seq<int>>)
    ensures Flatten(Groups(ls)) == MemberTokens(ls)
  {
    var s := Segments(ls);
    var k := |s| - 1;
    FlattenAppend(NonEmpty(s[..k]), [s[k]]);
    FlattenNonEmpty(s[..k]);
    assert Flatten([s[k]]) == s[k] + Flatten([]);
    FlattenAppend(s[..k], [s[k]]);
    assert s[..k] + [s[k]] == s;
    FlattenSegments(ls);
  }

  lemma {:induction false} SegmentsCount(ls: seq<seq<int>>)
    ensures |Segments(ls)| == 1 + SeparatorCount(ls)
  {
    if ls != [] {
      SegmentsCount(ls[1..]);
    }
  }

  /**
   * Each separator closes at most one group and the last group is always
   * there, so the number of groups is at least one and at most one more than
   * the number of separator lines; nothing relates it to m.
   */
  lemma GroupsCount(ls: seq<seq<int>>)
    ensures 1 <= |Groups(ls)| <= 1 + SeparatorCount(ls)
  {
    SegmentsCount(ls);
  }

  // ---------------------------------------------------------------------------
  // Reading back a file written in the count-first layout

  /** Per element, a line with its index count and then one line with its set indices. */
  function EncodeGroups(gs: seq<seq<int>>): seq<seq<int>>
  {
    if gs == [] then [] else [[|gs[0]|], gs[0]] + EncodeGroups(gs[1..])
  }

  /** The header line, all weights on one line, then the groups. */
  function Encode(inst: Instance): seq<seq<int>>
  {
    [[inst.m, inst.n], inst.weights] + EncodeGroups(inst.elements)
  }

  lemma {:induction false} SegmentsEncode(gs: seq<seq<int>>)
    requires forall k :: 0 <= k < |gs| ==> |gs[k]| >= 2
    ensures Segments(EncodeGroups(gs)) == [[]] + gs
  {
    if gs != [] {
      var tail := EncodeGroups(gs[1..]);
      var ls := EncodeGroups(gs);
      assert ls == [[|gs[0]|]] + ([gs[0]] + tail);
      assert ls[1..] == [gs[0]] + tail;
      assert ([gs[0]] + tail)[1..] == tail;
      SegmentsEncode(gs[1..]);
      assert Segments([gs[0]] + tail) == [gs[0] + []] + gs[1..];
      assert gs[0] + [] == gs[0];
      assert [gs[0]] + gs[1..] == gs;
    }
  }

  lemma {:induction false} NonEmptyKeeps(s: seq<seq<int>>)
    requires forall k :: 0 <= k < |s| ==> s[k] != []
    ensures NonEmpty(s) == s
  {
    if s != [] {
      NonEmptyKeeps(s[1..]);
    }
  }

  /** The membership part of the count-first layout reads back as the groups written. */
  lemma GroupsEncode(gs: seq<seq<int>>)
    requires |gs| >= 1
    requires forall k :: 0 <= k < |gs| ==> |gs[k]| >= 2
    ensures Groups(EncodeGroups(gs)) == gs
  {
    SegmentsEncode(gs);
    KeepLastCons([], gs);
    var k := |gs| - 1;
    assert forall i :: 0 <= i < k ==> gs[..k][i] == gs[i];
    NonEmptyKeeps(gs[..k]);
    assert gs[..k] + [gs[k]] == gs;
  }

  /**
   * An instance whose weights fill n >= 1 slots and whose every element lists
   * at least two set indices is read back exactly from the count-first layout.
   */
  lemma RoundTrip(inst: Instance)
    requires |inst.weights| == inst.n >= 1
    requires |inst.elements| >= 1
    requires forall k :: 0 <= k < |inst.elements| ==> |inst.elements[k]| >= 2
    ensures ParseSpec(Encode(inst)) == Some(inst)
  {
    var lines := Encode(inst);
    var rest := EncodeGroups(inst.elements);
    var body := [inst.weights] + rest;
    assert lines == [[inst.m, inst.n]] + body;
    assert lines[0] == [inst.m, inst.n] && lines[1..] == body;
    assert body[0] == inst.weights && body[1..] == rest;
    assert WeightLines(inst.n, body) == 1 + WeightLines(0, rest) == 1;
    assert body[..1] == [inst.weights];
    assert Flatten([inst.weights]) == inst.weights + Flatten([]);
    GroupsEncode(inst.elements);
    assert Flatten(body[..1]) == inst.weights;
    assert Groups(body[1..]) == inst.elements;
    assert ParseSpec(lines) == Some(Instance(inst.m, inst.n, Flatten(body[..1]), Groups(body[1..])));
  }

  /**
   * An element whose count line and index line both hold a single token loses
   * its index: here m = 1, n = 1, weight 7 and element {set 1} read back with an
   * empty group.
   */
  lemma SingleIndexIsDropped()
    ensures ParseSpec([[1, 1], [7], [1], [1]]) == Some(Instance(1, 1, [7], [[]]))
  {
    var body: seq<seq<int>> := [[7], [1], [1]];
    assert [[1, 1], [7], [1], [1]][1..] == body;
    assert WeightLines(1, body) == 1;
    assert body[..1] == [[7]];
    assert Flatten([[7]]) == [7] + Flatten([]);
    var ms: seq<seq<int>> := [[1], [1]];
    assert body[1..] == ms;
    assert ms[1..] == [[1]];
    assert [[1]][1..] == [];
    assert Segments([[1]]) == [[]] + Segments([]);
    assert Segments(ms) == [[], [], []];
    var s3: seq<seq<int>> := [[], [], []];
    assert s3[..2] == [[], []];
    assert NonEmpty([[], []]) == [];
    assert Groups(ms) == [[]];
    assert Flatten(body[..1]) == [7];
    assert ParseSpec([[1, 1], [7], [1], [1]]) == Some(Instance(1, 1, Flatten(body[..1]), Groups(body[1..])));
  }
}
