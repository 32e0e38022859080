/** The import-tree printer and expander of `scripts/enforce_use_groups.py`: the texts, the
    character loops that take them apart, the nested dictionary, and what comes back when a
    printed tree is split and expanded again. */
module ImportTree {
  import opened Ordering

  // ---------- text ----------

  /** The characters Python's `str.strip` removes. */
  predicate IsSpace(c: char) {
    var n := c as int;
    9 <= n <= 13 || 28 <= n <= 32 || n == 0x85 || n == 0xA0 || n == 0x1680 || 0x2000 <= n <= 0x200A
    || n == 0x2028 || n == 0x2029 || n == 0x202F || n == 0x205F || n == 0x3000
  }

  function StripLeft(s: string): string {
    if s != [] && IsSpace(s[0]) then StripLeft(s[1..]) else s
  }

  function StripRight(s: string): string {
    if s != [] && IsSpace(s[|s| - 1]) then StripRight(s[..|s| - 1]) else s
  }

  function Strip(s: string): string { StripRight(StripLeft(s)) }

  predicate Solid(s: string) { s != "" && !IsSpace(s[0]) && !IsSpace(s[|s| - 1]) }

  lemma StripSolid(s: string)
    requires Solid(s)
    ensures Strip(s) == s && Strip(" " + s) == s
  {
    var t := " " + s;
    assert IsSpace(' ') && t[1..] == s;
    assert StripLeft(t) == StripLeft(s) == s;
  }

  /** The blanks of a source file are spaces, and nothing visible of ASCII is. */
  lemma SpacesAre(c: char)
    ensures c in {' ', '\t', '\n', '\r'} ==> IsSpace(c)
    ensures '!' <= c <= '~' ==> !IsSpace(c)
  {
  }

  predicate Blank(s: string) { forall i :: 0 <= i < |s| ==> IsSpace(s[i]) }

  /** Both ends are stripped, of all blanks and of nothing else. */
  lemma StripExact(s: string)
    ensures exists a, b :: Blank(a) && Blank(b) && s == a + Strip(s) + b
    ensures Strip(s) == "" || Solid(Strip(s))
  {
    var t := StripLeft(s);
    StripLeftExact(s);
    StripRightExact(t);
    var a, b := s[..|s| - |t|], t[|Strip(s)|..];
    assert s == a + Strip(s) + b;
  }

  lemma {:induction false} StripLeftExact(s: string)
    ensures var t := StripLeft(s);
            && |t| <= |s| && s == s[..|s| - |t|] + t && Blank(s[..|s| - |t|])
            && (t != "" ==> !IsSpace(t[0]))
  {
    hide IsSpace;
    if s != [] && IsSpace(s[0]) {
      StripLeftExact(s[1..]);
      var n := |s| - |StripLeft(s)|;
      assert s[..n] == [s[0]] + s[1..][..n - 1];
    }
  }

  lemma {:induction false} StripRightExact(s: string)
    ensures var t := StripRight(s);
            && |t| <= |s| && s == t + s[|t|..] && Blank(s[|t|..])
            && (t != "" ==> !IsSpace(t[|t| - 1]) && t[0] == s[0])
  {
    hide IsSpace;
    if s != [] && IsSpace(s[|s| - 1]) {
      var front := s[..|s| - 1];
      StripRightExact(front);
      var n := |StripRight(s)|;
      assert s[n..] == front[n..] + [s[|s| - 1]];
      assert s == StripRight(s) + s[n..];
    }
  }

  /** What is stripped off is determined: blanks around a text without outer blanks. */
  lemma {:induction false} StripsTo(a: string, p: string, b: string)
    requires Blank(a) && Blank(b) && (p == "" || Solid(p))
    ensures Strip(a + p + b) == p
    decreases |a| + |b|
  {
    hide IsSpace;
    if a != "" {
      var s := a + p + b;
      assert s[0] == a[0] && s[1..] == a[1..] + p + b;
      StripsTo(a[1..], p, b);
    } else if p == "" {
      assert a + p + b == b;
      StripLeftBlank(b);
    } else {
      assert a + p + b == p + b;
      StripRightEnds(p, b);
    }
  }

  lemma {:induction false} StripLeftBlank(b: string)
    requires Blank(b)
    ensures StripLeft(b) == ""
  {
    if b != "" {
      StripLeftBlank(b[1..]);
    }
  }

  lemma {:induction false} StripRightEnds(p: string, b: string)
    requires Solid(p) && Blank(b)
    ensures StripRight(p + b) == p
  {
    var s := p + b;
    if b != "" {
      assert s[|s| - 1] == b[|b| - 1] && s[..|s| - 1] == p + b[..|b| - 1];
      StripRightEnds(p, b[..|b| - 1]);
    } else {
      assert s == p;
    }
  }

  lemma BracesAreSolid()
    ensures !IsSpace('{') && !IsSpace('}')
  {
  }

  function Braces(s: string): nat {
    if s == [] then 0 else (if s[0] == '{' then 1 else 0) + Braces(s[1..])
  }

  lemma {:induction false} BracesCounted(s: string)
    ensures Braces(s) == multiset(s)['{']
  {
    if s != [] {
      assert s == [s[0]] + s[1..];
      BracesCounted(s[1..]);
    }
  }

  /** Index of the first `{`, or -1. */
  function FindBrace(s: string): (i: int)
    ensures -1 <= i < |s|
    ensures i >= 0 ==> s[i] == '{' && '{' !in s[..i]
    ensures i == -1 ==> '{' !in s
  {
    if s == [] then -1
    else if s[0] == '{' then 0
    else
      var i := FindBrace(s[1..]);
      assert i >= 0 ==> s[..i + 1] == [s[0]] + s[1..][..i];
      if i == -1 then -1 else i + 1
  }

  /** The pieces between the commas at depth zero; `cur` is the piece being read. */
  function SplitTop(s: string, depth: int, cur: string): seq<string> {
    if s == [] then [cur]
    else if s[0] == '{' then SplitTop(s[1..], depth + 1, cur + [s[0]])
    else if s[0] == '}' then SplitTop(s[1..], depth - 1, cur + [s[0]])
    else if s[0] == ',' && depth == 0 then [cur] + SplitTop(s[1..], depth, "")
    else SplitTop(s[1..], depth, cur + [s[0]])
  }

  function StripAll(pieces: seq<string>): seq<string> {
    if pieces == [] then []
    else (if Strip(pieces[0]) == "" then [] else [Strip(pieces[0])]) + StripAll(pieces[1..])
  }

  /** The items a merge remainder lists. */
  function Items(remainder: string): seq<string> {
    var r := Strip(remainder);
    if r != [] && r[0] == '{' && r[|r| - 1] == '}' then StripAll(SplitTop(r[1..|r| - 1], 0, ""))
    else if r == "" then []
    else [r]
  }

  method NormalizeRemainderItems(remainder: string) returns (parts: seq<string>)
    ensures parts == Items(remainder)
  {
    hide Strip, IsSpace;
    var r := Strip(remainder);
    if r != [] && r[0] == '{' && r[|r| - 1] == '}' {
      var inner := r[1..|r| - 1];
      parts := [];
      var cur, depth := "", 0;
      for i := 0 to |inner|
        invariant StripAll(SplitTop(inner, 0, "")) == parts + StripAll(SplitTop(inner[i..], depth, cur))
      {
        var ch := inner[i];
        assert inner[i..][1..] == inner[i + 1..];
        if ch == '{' {
          depth := depth + 1;
          cur := cur + [ch];
        } else if ch == '}' {
          depth := depth - 1;
          cur := cur + [ch];
        } else if ch == ',' && depth == 0 {
          var part := Strip(cur);
          if part != "" {
            parts := parts + [part];
          }
          cur := "";
        } else {
          cur := cur + [ch];
        }
      }
      var last := Strip(cur);
      if last != "" {
        parts := parts + [last];
      }
    } else if r == "" {
      parts := [];
    } else {
      parts := [r];
    }
  }

  /** Opening minus closing braces. */
  function Depth(s: string): int {
    if s == [] then 0
    else Depth(s[..|s| - 1]) + (if s[|s| - 1] == '{' then 1 else if s[|s| - 1] == '}' then -1 else 0)
  }

  /** The `}` at `end` closes the `{` at `start`: the first point after `start` where the depth is back to zero. */
  ghost predicate Closes(s: string, start: nat, end: int) {
    && start < end < |s| && s[start] == '{'
    && Depth(s[start..end + 1]) == 0
    && forall i :: start < i <= end ==> Depth(s[start..i]) != 0
  }

  /** Offset in `s` at which the running depth first falls to zero at a `}`, or -1. */
  function Match(s: string, depth: int): (k: int)
    ensures -1 <= k < |s|
    ensures k >= 0 ==> s[k] == '}'
  {
    if s == [] then -1
    else if s[0] == '}' && depth == 1 then 0
    else
      var k := Match(s[1..], if s[0] == '{' then depth + 1 else if s[0] == '}' then depth - 1 else depth);
      if k == -1 then -1 else k + 1
  }

  function MatchingBrace(s: string, start: nat): (end: int)
    ensures end == -1 || start <= end < |s|
  {
    if start >= |s| || s[start] != '{' then -1
    else
      var k := Match(s[start..], 0);
      if k == -1 then -1 else start + k
  }

  method FindMatchingBrace(s: string, start: nat) returns (end: int)
    ensures end == MatchingBrace(s, start)
    ensures end >= 0 ==> Closes(s, start, end)
    ensures end == -1 ==> forall i :: !Closes(s, start, i)
  {
    if start >= |s| || s[start] != '{' {
      return -1;
    }
    hide *;
    var depth := 0;
    ScanStarts(s, start);
    for i := start to |s|
      invariant Scanned(s, start, i, depth)
    {
      ScanStep(s, start, i, depth);
      if s[i] == '{' {
        depth := depth + 1;
      } else if s[i] == '}' {
        depth := depth - 1;
        if depth == 0 {
          return i;
        }
      }
    }
    ScanEnds(s, start, depth);
    return -1;
  }

  /** The depth has not come back to zero before `i`. */
  ghost predicate Scanned(s: string, start: nat, i: nat, depth: int)
    requires start <= i <= |s|
  {
    && depth == Depth(s[start..i])
    && (if i == start then depth == 0 else depth > 0)
    && (forall j :: start < j <= i ==> Depth(s[start..j]) != 0)
    && MatchedFrom(s, start, i, depth)
  }

  lemma ScanStarts(s: string, start: nat)
    requires start < |s|
    ensures Scanned(s, start, start, 0)
  {
    assert s[start..start] == "";
  }

  lemma ScanStep(s: string, start: nat, i: nat, depth: int)
    requires start <= i < |s| && s[start] == '{' && Scanned(s, start, i, depth)
    ensures var next := if s[i] == '{' then depth + 1 else if s[i] == '}' then depth - 1 else depth;
            if s[i] == '}' && next == 0 then Closes(s, start, i) && MatchingBrace(s, start) == i
            else Scanned(s, start, i + 1, next)
  {
    hide Match, MatchingBrace, MatchedFrom, Depth, Closes;
    DepthNext(s, start, i);
    MatchNext(s, start, i, depth);
  }

  lemma ScanEnds(s: string, start: nat, depth: int)
    requires start < |s| && s[start] == '{' && Scanned(s, start, |s|, depth)
    ensures MatchingBrace(s, start) == -1 && forall i :: !Closes(s, start, i)
  {
    hide Match, MatchingBrace, MatchedFrom, Depth, Closes;
    MatchedToEnd(s, start, depth);
  }

  lemma MatchedToEnd(s: string, start: nat, depth: int)
    requires start < |s| && s[start] == '{' && MatchedFrom(s, start, |s|, depth)
    ensures MatchingBrace(s, start) == -1
    ensures (forall j :: start < j <= |s| ==> Depth(s[start..j]) != 0) ==> forall i :: !Closes(s, start, i)
  {
    assert s[|s|..] == "";
  }

  /** The search from `start` has come to `i` with running depth `depth`. */
  ghost predicate MatchedFrom(s: string, start: nat, i: nat, depth: int)
    requires start <= i <= |s|
  {
    Match(s[start..], 0) == if Match(s[i..], depth) == -1 then -1 else Match(s[i..], depth) + (i - start)
  }

  lemma DepthNext(s: string, start: nat, i: nat)
    requires start <= i < |s|
    ensures Depth(s[start..i + 1]) == Depth(s[start..i]) + (if s[i] == '{' then 1 else if s[i] == '}' then -1 else 0)
  {
    assert s[start..i + 1][..i - start] == s[start..i];
  }

  lemma MatchNext(s: string, start: nat, i: nat, depth: int)
    requires start <= i < |s| && s[start] == '{' && MatchedFrom(s, start, i, depth)
    ensures depth == Depth(s[start..i]) && (forall j :: start < j <= i ==> Depth(s[start..j]) != 0) && s[i] == '}'
            && depth == 1
            ==> Closes(s, start, i)
    ensures var next := if s[i] == '{' then depth + 1 else if s[i] == '}' then depth - 1 else depth;
            if s[i] == '}' && depth == 1 then MatchingBrace(s, start) == i else MatchedFrom(s, start, i + 1, next)
  {
    assert s[i..][1..] == s[i + 1..];
    DepthNext(s, start, i);
  }

  lemma {:induction false} MatchExact(s: string, start: nat, i: nat, depth: int)
    requires start <= i <= |s| && start < |s| && s[start] == '{' && Scanned(s, start, i, depth)
    ensures MatchingBrace(s, start) >= 0 ==> Closes(s, start, MatchingBrace(s, start))
    ensures MatchingBrace(s, start) == -1 ==> forall end :: !Closes(s, start, end)
    decreases |s| - i
  {
    hide MatchingBrace, Closes, Scanned;
    if i == |s| {
      ScanEnds(s, start, depth);
    } else {
      ScanStep(s, start, i, depth);
      var next := if s[i] == '{' then depth + 1 else if s[i] == '}' then depth - 1 else depth;
      if !(s[i] == '}' && next == 0) {
        MatchExact(s, start, i + 1, next);
      }
    }
  }

  // ---------- expansion ----------

  function Inserted(prefix: string, inner: string, suffix: string): string {
    if inner == "" then prefix + suffix else prefix + "::" + inner + suffix
  }

  /** Recursive expansion of one item.  Every round removes a brace, so it ends on any text. */
  function Expand(item: string): seq<string>
    decreases Braces(item), 1, 0
  {
    if item == "" then [""]
    else
      var start := FindBrace(item);
      if start == -1 then [item]
      else if start < 2 || item[start - 2..start] != "::" then [item]
      else
        var end := MatchingBrace(item, start);
        if end == -1 then [item]
        else
          var prefix, content, suffix := item[..start - 2], item[start..end + 1], item[end + 1..];
          assert item == prefix + "::" + content + suffix;
          InnerBraces(prefix, content, suffix);
          ExpandEach(Items(content), prefix, suffix, Braces(item))
  }

  function ExpandEach(inners: seq<string>, prefix: string, suffix: string, ghost bound: nat): seq<string>
    requires forall p :: p in inners ==> Braces(Inserted(prefix, p, suffix)) < bound
    decreases bound, 0, |inners|
  {
    if inners == [] then []
    else
      assert inners[0] in inners;
      Expand(Inserted(prefix, inners[0], suffix)) + ExpandEach(inners[1..], prefix, suffix, bound)
  }

  lemma {:induction false} FirstBrace(s: string, i: nat)
    requires i < |s| && s[i] == '{' && '{' !in s[..i]
    ensures FindBrace(s) == i
  {
    if i > 0 {
      assert s[..i][0] == s[0] && s[1..][..i - 1] == s[..i][1..];
      FirstBrace(s[1..], i - 1);
    }
  }

  /** A text is left as it is when it has no brace, when its first brace does not follow `::`, and
      when nothing closes that brace. */
  lemma ExpandLeavesAlone(item: string, start: nat)
    requires item != ""
    requires || '{' !in item
             || (&& start < |item| && item[start] == '{' && '{' !in item[..start]
                 && (start < 2 || item[start - 2..start] != "::" || forall end :: !Closes(item, start, end)))
    ensures Expand(item) == [item]
  {
    hide MatchingBrace, Closes, Scanned, Items;
    var found := FindBrace(item);
    if found != -1 {
      if start < |item| && item[start] == '{' && '{' !in item[..start] {
        FirstBrace(item, start);
      }
      ScanStarts(item, found);
      MatchExact(item, found, found, 0);
    }
  }

  function ExpandAll(items: seq<string>): seq<string> {
    if items == [] then [] else Expand(items[0]) + ExpandAll(items[1..])
  }

  lemma {:induction false} BracesConcat(a: string, b: string)
    ensures Braces(a + b) == Braces(a) + Braces(b)
  {
    if a == [] {
      assert a + b == b;
    } else {
      assert (a + b)[1..] == a[1..] + b;
      BracesConcat(a[1..], b);
    }
  }

  lemma BracesSlice(s: string, i: nat, j: nat)
    requires i <= j <= |s|
    ensures Braces(s) == Braces(s[..i]) + Braces(s[i..j]) + Braces(s[j..])
  {
    hide Braces;
    assert s == s[..i] + s[i..j] + s[j..];
    BracesConcat(s[..i] + s[i..j], s[j..]);
    BracesConcat(s[..i], s[i..j]);
  }

  lemma {:induction false} BracesStrip(s: string)
    ensures Braces(StripLeft(s)) <= Braces(s) && Braces(StripRight(s)) <= Braces(s)
    decreases |s|
  {
    if s != [] {
      if IsSpace(s[0]) {
        BracesStrip(s[1..]);
      }
      if IsSpace(s[|s| - 1]) {
        BracesStrip(s[..|s| - 1]);
        BracesSlice(s, |s| - 1, |s|);
      }
    }
  }

  lemma {:induction false} BracesSplit(s: string, depth: int, cur: string)
    ensures forall p :: p in SplitTop(s, depth, cur) ==> Braces(p) <= Braces(cur) + Braces(s)
  {
    if s != [] {
      BracesConcat(cur, [s[0]]);
      var d := if s[0] == '{' then depth + 1 else if s[0] == '}' then depth - 1 else depth;
      if s[0] == ',' && depth == 0 {
        BracesSplit(s[1..], depth, "");
      } else {
        BracesSplit(s[1..], d, cur + [s[0]]);
      }
    }
  }

  lemma {:induction false} BracesStripAll(pieces: seq<string>, bound: nat)
    requires forall p :: p in pieces ==> Braces(p) <= bound
    ensures forall p :: p in StripAll(pieces) ==> Braces(p) <= bound && p != ""
  {
    if pieces != [] {
      assert pieces[0] in pieces;
      BracesStrip(pieces[0]);
      BracesStrip(StripLeft(pieces[0]));
      BracesStripAll(pieces[1..], bound);
    }
  }

  lemma BracesItems(content: string)
    requires |content| >= 2 && content[0] == '{' && content[|content| - 1] == '}'
    ensures forall p :: p in Items(content) ==> Braces(p) < Braces(content)
  {
    hide Strip, IsSpace, StripAll, SplitTop;
    BracesAreSolid();
    StripSolid(content);
    var inner := content[1..|content| - 1];
    BracesSplit(inner, 0, "");
    BracesStripAll(SplitTop(inner, 0, ""), Braces(inner));
    assert content == ['{'] + inner + ['}'];
    BracesConcat(['{'] + inner, ['}']);
    BracesConcat(['{'], inner);
  }

  /** What is spliced back holds at least one brace less. */
  lemma InnerBraces(prefix: string, content: string, suffix: string)
    requires |content| >= 2 && content[0] == '{' && content[|content| - 1] == '}'
    ensures forall p :: p in Items(content)
                        ==> Braces(Inserted(prefix, p, suffix)) < Braces(prefix + "::" + content + suffix)
  {
    BracesItems(content);
    BracesConcat(prefix + "::" + content, suffix);
    BracesConcat(prefix + "::", content);
    BracesConcat(prefix, "::");
    forall p | p in Items(content)
      ensures Braces(Inserted(prefix, p, suffix)) < Braces(prefix + "::" + content + suffix)
    {
      BracesConcat(prefix + "::" + p, suffix);
      BracesConcat(prefix + "::", p);
      BracesConcat(prefix, suffix);
    }
  }

  // ---------- paths ----------

  function SplitOn(s: string, cur: string): seq<string> {
    if |s| < 2 then [cur + s]
    else if s[..2] == "::" then [cur] + SplitOn(s[2..], "")
    else SplitOn(s[1..], cur + [s[0]])
  }

  /** `item.split("::")` */
  function SplitPath(item: string): seq<string> { SplitOn(item, "") }

  function JoinPath(path: seq<string>): string {
    if path == [] then "" else if |path| == 1 then path[0] else path[0] + "::" + JoinPath(path[1..])
  }

  predicate PlainSegment(s: string) {
    && Solid(s) && '{' !in s && '}' !in s && ',' !in s && ':' !in s
  }

  ghost predicate PlainSegments(path: seq<string>) {
    path != [] && forall s :: s in path ==> PlainSegment(s)
  }

  /** A path as the grouped statements name it: segments without braces, commas or outer blanks. */
  ghost predicate PlainPath(item: string) { PlainSegments(SplitPath(item)) }

  lemma {:induction false} JoinOfSplit(s: string, cur: string)
    ensures JoinPath(SplitOn(s, cur)) == cur + s && SplitOn(s, cur) != []
  {
    if |s| >= 2 {
      if s[..2] == "::" {
        JoinOfSplit(s[2..], "");
        assert SplitOn(s, cur)[1..] == SplitOn(s[2..], "");
        assert cur + "::" + s[2..] == cur + s;
      } else {
        JoinOfSplit(s[1..], cur + [s[0]]);
        assert cur + [s[0]] + s[1..] == cur + s;
      }
    }
  }

  lemma {:induction false} SplitSegment(seg: string, rest: string, cur: string)
    requires ':' !in seg && (rest == "" || (|rest| >= 2 && rest[..2] == "::"))
    ensures SplitOn(seg + rest, cur) == SplitOn(rest, cur + seg)
  {
    if seg == "" {
      assert seg + rest == rest && cur + seg == cur;
    } else {
      var s := seg + rest;
      assert s[0] == seg[0] != ':';
      assert s[1..] == seg[1..] + rest;
      assert (cur + [seg[0]]) + seg[1..] == cur + seg;
      SplitSegment(seg[1..], rest, cur + [seg[0]]);
      if |s| < 2 {
        assert seg == [seg[0]] && rest == "" && cur + s == cur + [seg[0]] + "";
      } else {
        assert s[..2][0] != ':';
      }
    }
  }

  lemma SplitFirst(seg: string, rest: string)
    requires ':' !in seg
    ensures SplitPath(seg) == [seg]
    ensures SplitPath(seg + "::" + rest) == [seg] + SplitPath(rest)
  {
    assert "" + seg == seg == seg + "";
    SplitSegment(seg, "", "");
    var tail := "::" + rest;
    assert seg + "::" + rest == seg + tail && tail[..2] == "::" && tail[2..] == rest;
    SplitSegment(seg, tail, "");
  }

  lemma {:induction false} SplitOfJoin(path: seq<string>)
    requires PlainSegments(path)
    ensures SplitPath(JoinPath(path)) == path
  {
    hide SplitPath, SplitOn;
    assert path[0] in path;
    if |path| == 1 {
      SplitFirst(path[0], "");
    } else {
      SplitOfJoin(path[1..]);
      SplitFirst(path[0], JoinPath(path[1..]));
    }
  }

  lemma {:induction false} JoinWithoutBraces(path: seq<string>)
    requires forall s :: s in path ==> PlainSegment(s)
    ensures '{' !in JoinPath(path)
  {
    if path != [] {
      assert path[0] in path;
      if |path| > 1 {
        JoinWithoutBraces(path[1..]);
      }
    }
  }

  lemma ExpandPlain(item: string)
    requires '{' !in item
    ensures Expand(item) == [item]
  {
  }

  // ---------- the tree ----------

  datatype Tree = Node(children: map<string, Tree>)

  const EMPTY := Node(map[])

  /** Walking down from the root along `path`, adding what is missing. */
  function Insert(t: Tree, path: seq<string>): Tree
    decreases |path|
  {
    if path == [] then t
    else
      var child := if path[0] in t.children then t.children[path[0]] else EMPTY;
      Node(t.children[path[0] := Insert(child, path[1..])])
  }

  function InsertItem(t: Tree, item: string): Tree {
    if item == "" then Node(t.children["" := EMPTY]) else Insert(t, SplitPath(item))
  }

  function InsertAll(t: Tree, items: seq<string>): Tree
    decreases |items|
  {
    if items == [] then t else InsertAll(InsertItem(t, items[0]), items[1..])
  }

  function Build(items: seq<string>): Tree { InsertAll(EMPTY, ExpandAll(items)) }

  method BuildImportTree(items: seq<string>) returns (tree: Tree)
    ensures tree == Build(items)
  {
    var expanded := ExpandAll(items);
    tree := EMPTY;
    for i := 0 to |expanded|
      invariant InsertAll(EMPTY, expanded) == InsertAll(tree, expanded[i..])
    {
      assert expanded[i..][1..] == expanded[i + 1..];
      tree := InsertItem(tree, expanded[i]);
    }
  }

  ghost predicate HasPath(t: Tree, path: seq<string>)
    decreases |path|
  {
    path == [] || (path[0] in t.children && HasPath(t.children[path[0]], path[1..]))
  }

  ghost predicate IsLeaf(t: Tree, path: seq<string>)
    decreases |path|
  {
    if path == [] then t.children == map[]
    else path[0] in t.children && IsLeaf(t.children[path[0]], path[1..])
  }

  lemma {:induction false} HasPathInsert(t: Tree, path: seq<string>, q: seq<string>)
    ensures HasPath(Insert(t, path), q) <==> HasPath(t, q) || q <= path
    decreases |path|
  {
    if path != [] && q != [] {
      assert q <= path <==> q[0] == path[0] && q[1..] <= path[1..];
      if q[0] == path[0] {
        var child := if path[0] in t.children then t.children[path[0]] else EMPTY;
        HasPathInsert(child, path[1..], q[1..]);
        if path[0] !in t.children {
          assert HasPath(EMPTY, q[1..]) ==> q[1..] == [] && q[1..] <= path[1..];
        }
      }
    }
  }

  lemma {:induction false} LeafIffNoChild(t: Tree, path: seq<string>)
    ensures IsLeaf(t, path) <==> HasPath(t, path) && forall k :: !HasPath(t, path + [k])
    decreases |path|
  {
    if path == [] {
      forall k ensures HasPath(t, path + [k]) <==> k in t.children {
        assert (path + [k])[0] == k && (path + [k])[1..] == [];
      }
      if t.children != map[] {
        var k :| k in t.children;
        assert HasPath(t, path + [k]);
      }
    } else {
      forall k ensures (path + [k])[0] == path[0] && (path + [k])[1..] == path[1..] + [k] {
      }
      if path[0] in t.children {
        var c := t.children[path[0]];
        LeafIffNoChild(c, path[1..]);
        assert forall k :: HasPath(t, path + [k]) <==> HasPath(c, path[1..] + [k]);
      }
    }
  }

  lemma HasChild(t: Tree, k: string)
    ensures HasPath(t, [k]) <==> k in t.children
  {
    assert [k][0] == k && [k][1..] == [];
  }

  /** Trees are determined by the paths they contain. */
  lemma {:induction false} TreesEqual(t: Tree, u: Tree)
    requires forall p :: HasPath(t, p) <==> HasPath(u, p)
    ensures t == u
    decreases t
  {
    forall k ensures k in t.children <==> k in u.children {
      HasChild(t, k);
      HasChild(u, k);
    }
    forall k | k in t.children ensures t.children[k] == u.children[k] {
      forall p ensures HasPath(t.children[k], p) <==> HasPath(u.children[k], p) {
        assert ([k] + p)[0] == k && ([k] + p)[1..] == p;
        assert HasPath(t, [k] + p) <==> HasPath(u, [k] + p);
      }
      TreesEqual(t.children[k], u.children[k]);
    }
    assert t.children == u.children;
  }

  /** All keys of the tree are plain segments. */
  ghost predicate PlainTree(t: Tree) {
    forall k :: k in t.children ==> PlainSegment(k) && PlainTree(t.children[k])
  }

  // ---------- printing ----------

  function Join(parts: seq<string>): string {
    if parts == [] then "" else if |parts| == 1 then parts[0] else parts[0] + ", " + Join(parts[1..])
  }

  ghost function Format(t: Tree): string
    decreases t, 1, 0
  {
    if t.children == map[] then ""
    else FormatKeys(t, "" in t.children, Ascending(t.children.Keys - {""}))
  }

  ghost function FormatKeys(t: Tree, hasSelf: bool, keys: seq<string>): string
    requires forall k :: k in keys ==> k in t.children
    decreases t, 0, 2 + |keys|
  {
    if keys == [] then ""
    else
      assert keys[0] in keys;
      if |keys| == 1 && t.children[keys[0]].children == map[] && !hasSelf then keys[0]
      else
        var parts := (if hasSelf then ["self"] else []) + Parts(t, keys);
        if |parts| == 1 && !hasSelf then parts[0] else "{" + Join(parts) + "}"
  }

  ghost function Parts(t: Tree, keys: seq<string>): (parts: seq<string>)
    requires forall k :: k in keys ==> k in t.children
    ensures |parts| == |keys|
    decreases t, 0, 1 + |keys|
  {
    if keys == [] then []
    else
      assert keys[0] in keys;
      [PartOf(t, keys[0])] + Parts(t, keys[1..])
  }

  ghost function PartOf(t: Tree, k: string): string
    requires k in t.children
    decreases t, 0, 0
  {
    var sub := t.children[k];
    var text := if sub.children == map[] then "" else Format(sub);
    if text == "" then k else k + "::" + text
  }

  /** The leaf paths of a tree in printing order. */
  ghost function Leaves(t: Tree): seq<seq<string>>
    decreases t, 1, 0
  {
    if t.children == map[] then [[]] else LeavesUnder(t, Ascending(t.children.Keys))
  }

  ghost function LeavesUnder(t: Tree, keys: seq<string>): seq<seq<string>>
    requires forall k :: k in keys ==> k in t.children
    decreases t, 0, |keys|
  {
    if keys == [] then []
    else
      assert keys[0] in keys;
      Under(keys[0], Leaves(t.children[keys[0]])) + LeavesUnder(t, keys[1..])
  }

  function Under(k: string, paths: seq<seq<string>>): (r: seq<seq<string>>)
    ensures |r| == |paths| && forall i :: 0 <= i < |r| ==> r[i] == [k] + paths[i]
  {
    seq(|paths|, i requires 0 <= i < |paths| => [k] + paths[i])
  }

  function Texts(paths: seq<seq<string>>): (r: seq<string>)
    ensures |r| == |paths| && forall i :: 0 <= i < |r| ==> r[i] == JoinPath(paths[i])
  {
    seq(|paths|, i requires 0 <= i < |paths| => JoinPath(paths[i]))
  }
}
