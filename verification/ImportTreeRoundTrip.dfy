/** Splitting and expanding a printed import tree gives back the paths that went in: exactly
    those that no other path extends, each once. */
module ImportTreeRoundTrip {
  import opened Ordering
  import opened ImportTree

  // ---------- balanced text ----------

  /** Depth after reading `s` from depth `d`, unless it falls below zero on the way. */
  function Nest(s: string, d: nat): int {
    if s == [] then d
    else if s[0] == '{' then Nest(s[1..], d + 1)
    else if s[0] == '}' then (if d == 0 then -1 else Nest(s[1..], d - 1))
    else Nest(s[1..], d)
  }

  /** No comma is read at depth zero. */
  predicate CommaFree(s: string, d: int) {
    s == [] || (!(s[0] == ',' && d == 0)
                && CommaFree(s[1..], if s[0] == '{' then d + 1 else if s[0] == '}' then d - 1 else d))
  }

  lemma {:induction false} NestConcat(a: string, b: string, d: nat)
    requires Nest(a, d) >= 0
    ensures Nest(a + b, d) == Nest(b, Nest(a, d))
    ensures CommaFree(a + b, d) <==> CommaFree(a, d) && CommaFree(b, Nest(a, d))
  {
    if a == [] {
      assert a + b == b;
    } else {
      assert (a + b)[1..] == a[1..] + b;
      NestConcat(a[1..], b, if a[0] == '{' then d + 1 else if a[0] == '}' then d - 1 else d);
    }
  }

  /** One level further in, the depth is one more and stays above zero. */
  lemma {:induction false} NestDeeper(a: string, d: nat)
    requires Nest(a, d) >= 0
    ensures Nest(a, d + 1) == Nest(a, d) + 1 && CommaFree(a, d + 1)
  {
    if a != [] {
      NestDeeper(a[1..], if a[0] == '{' then d + 1 else if a[0] == '}' then d - 1 else d);
    }
  }

  lemma {:induction false} MatchConcat(a: string, b: string, d: nat)
    requires Nest(a, d) >= 0
    ensures Match(a + b, d + 1) == if Match(b, Nest(a, d) + 1) == -1 then -1 else |a| + Match(b, Nest(a, d) + 1)
  {
    if a == [] {
      assert a + b == b;
    } else {
      assert (a + b)[1..] == a[1..] + b;
      MatchConcat(a[1..], b, if a[0] == '{' then d + 1 else if a[0] == '}' then d - 1 else d);
    }
  }

  lemma {:induction false} SplitTopConcat(a: string, b: string, d: nat, cur: string)
    requires Nest(a, d) >= 0 && CommaFree(a, d)
    ensures SplitTop(a + b, d, cur) == SplitTop(b, Nest(a, d), cur + a)
  {
    if a == [] {
      assert a + b == b && cur + a == cur;
    } else {
      assert (a + b)[1..] == a[1..] + b;
      assert cur + [a[0]] + a[1..] == cur + a;
      SplitTopConcat(a[1..], b, if a[0] == '{' then d + 1 else if a[0] == '}' then d - 1 else d, cur + [a[0]]);
    }
  }

  /** A text that survives the splitting whole: balanced, no comma outside braces, no outer
      blanks, and not itself a braced list. */
  ghost predicate Part(p: string) {
    Solid(p) && p[0] != '{' && Nest(p, 0) == 0 && CommaFree(p, 0)
  }

  ghost predicate AllParts(parts: seq<string>) {
    forall p :: p in parts ==> Part(p)
  }

  lemma {:induction false} NestOfPlain(s: string, d: nat)
    requires '{' !in s && '}' !in s && ',' !in s
    ensures Nest(s, d) == d && CommaFree(s, d)
  {
    if s != [] {
      NestOfPlain(s[1..], d);
    }
  }

  lemma SegmentIsPart(k: string)
    requires PlainSegment(k)
    ensures Part(k)
  {
    NestOfPlain(k, 0);
    assert k[0] in k;
  }

  lemma {:induction false} JoinNests(parts: seq<string>)
    requires AllParts(parts)
    ensures Nest(Join(parts), 0) == 0
  {
    if parts != [] {
      assert parts[0] in parts;
      if |parts| > 1 {
        JoinNests(parts[1..]);
        assert Nest(", ", 0) == 0 by {
          assert ", "[1..] == " " && " "[1..] == "";
        }
        NestConcat(parts[0], ", ", 0);
        NestConcat(parts[0] + ", ", Join(parts[1..]), 0);
      }
    }
  }

  /** A braced list of parts is balanced, and its first brace is closed by its last. */
  lemma BracedList(parts: seq<string>)
    requires AllParts(parts)
    ensures var s := "{" + Join(parts) + "}";
            && Nest(s, 0) == 0 && CommaFree(s, 0) && Solid(s)
            && Match(s, 0) == |s| - 1
  {
    var j := Join(parts);
    var s := "{" + j + "}";
    JoinNests(parts);
    NestDeeper(j, 0);
    NestConcat(j, "}", 1);
    MatchConcat(j, "}", 0);
    assert "}"[1..] == "" && s[1..] == j + "}";
    BracesAreSolid();
  }

  /** Splitting at the outer commas and stripping undoes joining. */
  lemma {:induction false} JoinSplits(parts: seq<string>, cur: string)
    requires AllParts(parts) && parts != [] && (cur == "" || cur == " ")
    ensures StripAll(SplitTop(Join(parts), 0, cur)) == parts
  {
    hide Solid, IsSpace, Strip, Nest, CommaFree;
    var p := parts[0];
    assert p in parts;
    PartStrips(p, cur);
    if |parts| == 1 {
      assert p == p + "" && parts == [p];
      SplitTopConcat(p, "", 0, cur);
      assert StripAll([]) == [];
      assert StripAll([cur + p]) == [p] + StripAll([cur + p][1..]);
    } else {
      var rest := Join(parts[1..]);
      assert Join(parts) == p + (", " + rest);
      SplitTopConcat(p, ", " + rest, 0, cur);
      assert (", " + rest)[1..] == " " + rest && (" " + rest)[1..] == rest && "" + [' '] == " ";
      assert SplitTop(", " + rest, 0, cur + p) == [cur + p] + SplitTop(" " + rest, 0, "");
      assert SplitTop(" " + rest, 0, "") == SplitTop(rest, 0, " ");
      JoinSplits(parts[1..], " ");
      assert ([cur + p] + SplitTop(rest, 0, " "))[1..] == SplitTop(rest, 0, " ");
      assert parts == [p] + parts[1..];
    }
  }

  lemma PartStrips(p: string, cur: string)
    requires Part(p) && (cur == "" || cur == " ")
    ensures Strip(cur + p) == p != "" && Nest(p, 0) == 0 && CommaFree(p, 0)
  {
    StripSolid(p);
    assert "" + p == p;
  }

  lemma ItemsOfBracedList(parts: seq<string>)
    requires AllParts(parts) && parts != []
    ensures Items("{" + Join(parts) + "}") == parts
  {
    hide StripAll, SplitTop, Strip, Solid, IsSpace, Nest, CommaFree;
    var s := "{" + Join(parts) + "}";
    BracedList(parts);
    StripSolid(s);
    assert s[1..|s| - 1] == Join(parts);
    JoinSplits(parts, "");
  }

  lemma ItemsOfPart(p: string)
    requires Part(p)
    ensures Items(p) == [p]
  {
    StripSolid(p);
  }

  // ---------- lists as they are written ----------

  /** The part with blanks on either side. */
  ghost predicate Spaced(piece: string, part: string) {
    exists a, b :: Blank(a) && Blank(b) && piece == a + part + b
  }

  ghost predicate AllSpaced(pieces: seq<string>, parts: seq<string>) {
    |pieces| == |parts| && forall i :: 0 <= i < |pieces| ==> Spaced(pieces[i], parts[i])
  }

  function Commas(pieces: seq<string>): string {
    if pieces == [] then "" else if |pieces| == 1 then pieces[0] else pieces[0] + "," + Commas(pieces[1..])
  }

  lemma {:induction false} BlankNests(s: string)
    requires Blank(s)
    ensures Nest(s, 0) == 0 && CommaFree(s, 0)
  {
    if s != "" {
      assert IsSpace(s[0]);
      BlankNests(s[1..]);
    }
  }

  lemma SpacedPiece(piece: string, part: string)
    requires Spaced(piece, part) && (part == "" || Part(part))
    ensures Strip(piece) == part && Nest(piece, 0) == 0 && CommaFree(piece, 0)
  {
    hide Strip, IsSpace, Nest, CommaFree;
    var a, b :| Blank(a) && Blank(b) && piece == a + part + b;
    StripsTo(a, part, b);
    BlankNests(a);
    BlankNests(b);
    BlankNests("");
    NestConcat(a, part, 0);
    NestConcat(a + part, b, 0);
  }

  /** A part that may be left blank is dropped. */
  function Filled(parts: seq<string>): seq<string> {
    if parts == [] then [] else (if parts[0] == "" then [] else [parts[0]]) + Filled(parts[1..])
  }

  lemma SplitFirstPiece(piece: string, rest: string)
    requires Nest(piece, 0) == 0 && CommaFree(piece, 0)
    ensures SplitTop(piece, 0, "") == [piece]
    ensures SplitTop(piece + ("," + rest), 0, "") == [piece] + SplitTop(rest, 0, "")
  {
    hide Nest, CommaFree;
    assert "" + piece == piece == piece + "";
    SplitTopConcat(piece, "", 0, "");
    SplitTopConcat(piece, "," + rest, 0, "");
    assert ("," + rest)[1..] == rest;
  }

  lemma StripAllCons(piece: string, rest: seq<string>)
    ensures StripAll([piece]) == if Strip(piece) == "" then [] else [Strip(piece)]
    ensures StripAll([piece] + rest) == (if Strip(piece) == "" then [] else [Strip(piece)]) + StripAll(rest)
  {
    hide Strip;
    assert ([piece] + rest)[1..] == rest;
  }

  lemma {:induction false} SplitSpaced(pieces: seq<string>, parts: seq<string>)
    requires AllSpaced(pieces, parts) && pieces != [] && forall p :: p in parts ==> p == "" || Part(p)
    ensures StripAll(SplitTop(Commas(pieces), 0, "")) == Filled(parts)
  {
    hide Part, Strip, Nest, CommaFree, Spaced, StripAll, SplitTop;
    var piece := pieces[0];
    assert parts[0] in parts;
    SpacedPiece(piece, parts[0]);
    if |pieces| == 1 {
      SplitFirstPiece(piece, "");
      StripAllCons(piece, []);
      assert Filled(parts[1..]) == [];
    } else {
      var rest := Commas(pieces[1..]);
      assert Commas(pieces) == piece + ("," + rest);
      SplitFirstPiece(piece, rest);
      StripAllCons(piece, SplitTop(rest, 0, ""));
      SplitSpaced(pieces[1..], parts[1..]);
    }
  }

  /** A braced list as people write it, with any blanks around the braces and the parts, on one line
      or on many, and with or without a trailing comma: its items are exactly the parts. */
  lemma ItemsOfSpacedList(before: string, pieces: seq<string>, after: string, parts: seq<string>, trailing: string)
    requires Blank(before) && Blank(after) && Blank(trailing) && AllParts(parts)
    requires AllSpaced(pieces, parts) && parts != []
    ensures Items(before + ("{" + Commas(pieces) + "}") + after) == parts
    ensures Items(before + ("{" + Commas(pieces + [trailing]) + "}") + after) == parts
  {
    hide StripAll, SplitTop, Strip, Solid, IsSpace, Nest, CommaFree, Part, Commas;
    AllFilled(parts);
    ItemsBetween(before, Commas(pieces), after);
    SplitSpaced(pieces, parts);
    assert Spaced(trailing, "") by {
      assert trailing == trailing + "" + "" && Blank("");
    }
    assert AllSpaced(pieces + [trailing], parts + [""]);
    ItemsBetween(before, Commas(pieces + [trailing]), after);
    SplitSpaced(pieces + [trailing], parts + [""]);
    FilledConcat(parts, [""]);
    assert parts + [] == parts;
  }

  lemma {:induction false} AllFilled(parts: seq<string>)
    requires AllParts(parts)
    ensures Filled(parts) == parts
  {
    if parts != [] {
      assert parts[0] in parts;
      AllFilled(parts[1..]);
    }
  }

  lemma {:induction false} FilledConcat(a: seq<string>, b: seq<string>)
    ensures Filled(a + b) == Filled(a) + Filled(b)
    ensures Filled([""]) == []
  {
    if a == [] {
      assert a + b == b;
    } else {
      assert (a + b)[1..] == a[1..] + b;
      FilledConcat(a[1..], b);
    }
  }

  lemma ItemsBetween(before: string, inner: string, after: string)
    requires Blank(before) && Blank(after)
    ensures Items(before + ("{" + inner + "}") + after) == StripAll(SplitTop(inner, 0, ""))
  {
    hide IsSpace, Strip, StripAll, SplitTop;
    var s := "{" + inner + "}";
    BracesAreSolid();
    StripsTo(before, s, after);
    assert s[1..|s| - 1] == inner;
  }

  /** Without braces there is one item, the text without its outer blanks, or none. */
  lemma ItemsWithoutBraces(before: string, p: string, after: string)
    requires Blank(before) && Blank(after) && (p == "" || (Solid(p) && p[0] != '{'))
    ensures Items(before + p + after) == if p == "" then [] else [p]
  {
    hide IsSpace, Strip;
    StripsTo(before, p, after);
  }

  // ---------- the printed text ----------

  lemma KeysOf(t: Tree)
    requires PlainTree(t)
    ensures "" !in t.children && t.children.Keys - {""} == t.children.Keys
  {
    assert "" in t.children ==> PlainSegment("");
  }

  /** What the printer returns for a tree of plain keys: the one part, or the braced list. */
  lemma FormatOfParts(t: Tree)
    requires PlainTree(t) && t.children != map[]
    ensures var keys := Ascending(t.children.Keys);
            keys != [] && Format(t) == if |keys| == 1 then PartOf(t, keys[0]) else "{" + Join(Parts(t, keys)) + "}"
  {
    KeysOf(t);
    hide PlainTree, Join, Ascending, FormatKeys, Parts, PartOf;
    var keys := Ascending(t.children.Keys);
    assert t.children.Keys != {} by {
      var k :| k in t.children;
    }
    FormatKeysPlain(t, keys);
  }

  lemma FormatKeysPlain(t: Tree, keys: seq<string>)
    requires keys != [] && forall k :: k in keys ==> k in t.children
    ensures keys[0] in keys
    ensures FormatKeys(t, false, keys)
         == if |keys| == 1 then PartOf(t, keys[0]) else "{" + Join(Parts(t, keys)) + "}"
  {
    hide Join, Format;
    assert keys[0] in keys;
    assert [] + Parts(t, keys) == Parts(t, keys);
  }

  lemma {:induction false} FormatIsBalanced(t: Tree)
    requires PlainTree(t) && t.children != map[]
    ensures Nest(Format(t), 0) == 0 && CommaFree(Format(t), 0) && Solid(Format(t))
    ensures AllParts(Parts(t, Ascending(t.children.Keys)))
    decreases t, 1, 0
  {
    var keys := Ascending(t.children.Keys);
    PartsAreParts(t, keys);
    FormatOfParts(t);
    var parts := Parts(t, keys);
    if |keys| == 1 {
      assert keys[0] in keys;
      PartIsPart(t, keys[0]);
    } else {
      BracedList(parts);
    }
  }

  lemma {:induction false} PartsAreParts(t: Tree, keys: seq<string>)
    requires PlainTree(t) && forall k :: k in keys ==> k in t.children
    ensures AllParts(Parts(t, keys))
    decreases t, 0, 1 + |keys|
  {
    if keys != [] {
      var k := keys[0];
      assert k in keys;
      PartIsPart(t, k);
      PartsAreParts(t, keys[1..]);
    }
  }

  lemma {:induction false} PartIsPart(t: Tree, k: string)
    requires PlainTree(t) && k in t.children
    ensures Part(PartOf(t, k))
    decreases t, 0, 0
  {
    var sub := t.children[k];
    SegmentIsPart(k);
    if sub.children != map[] {
      FormatIsBalanced(sub);
      KeyedPart(k, Format(sub));
    }
  }

  lemma KeyedPart(k: string, text: string)
    requires PlainSegment(k) && Nest(text, 0) == 0 && CommaFree(text, 0) && Solid(text)
    ensures Part(k + "::" + text)
  {
    hide Nest, CommaFree, IsSpace;
    SegmentIsPart(k);
    NestOfPlain("::", 0);
    NestConcat(k, "::", 0);
    NestConcat(k + "::", text, 0);
  }

  // ---------- expansion of the printed text ----------

  /** The prefix in front of a braced list: not empty and without braces. */
  ghost predicate Prefix(s: string) { s != "" && '{' !in s }

  lemma {:induction false} FindBraceConcat(a: string, b: string)
    requires '{' !in a && b != "" && b[0] == '{'
    ensures FindBrace(a + b) == |a|
  {
    if a == [] {
      assert a + b == b;
    } else {
      assert (a + b)[1..] == a[1..] + b;
      FindBraceConcat(a[1..], b);
    }
  }

  /** One round of expansion: a prefix and a braced list of parts. */
  lemma ExpandBracedList(prefix: string, parts: seq<string>)
    requires Prefix(prefix) && AllParts(parts) && parts != []
    ensures var item := prefix + "::" + ("{" + Join(parts) + "}");
            && (forall p :: p in parts ==> Braces(Inserted(prefix, p, "")) < Braces(item))
            && Expand(item) == ExpandEach(parts, prefix, "", Braces(item))
  {
    hide Solid, IsSpace, Strip, Nest, CommaFree, Items, Braces, Join;
    var content := "{" + Join(parts) + "}";
    var item := prefix + "::" + content;
    FindBraceConcat(prefix + "::", content);
    var start := |prefix| + 2;
    assert item[start..] == content;
    BracedList(parts);
    assert MatchingBrace(item, start) == |item| - 1;
    assert item[..start - 2] == prefix && item[start - 2..start] == "::";
    assert item[start..|item| - 1 + 1] == content && item[|item| - 1 + 1..] == "";
    ItemsOfBracedList(parts);
    InnerBraces(prefix, content, "");
    assert prefix + "::" + content + "" == item;
  }

  lemma {:induction false} CommasNest(pieces: seq<string>, parts: seq<string>)
    requires AllSpaced(pieces, parts) && AllParts(parts)
    ensures Nest(Commas(pieces), 0) == 0
  {
    hide Part, Solid, IsSpace, Spaced;
    if pieces != [] {
      assert parts[0] in parts;
      SpacedPiece(pieces[0], parts[0]);
      if |pieces| > 1 {
        CommasNest(pieces[1..], parts[1..]);
        assert Nest(",", 0) == 0 by {
          assert ","[1..] == "";
        }
        NestConcat(pieces[0], ",", 0);
        NestConcat(pieces[0] + ",", Commas(pieces[1..]), 0);
      }
    }
  }

  lemma ClosedByNext(inner: string, suffix: string)
    requires Nest(inner, 0) == 0
    ensures Match("{" + inner + "}" + suffix, 0) == |inner| + 1
  {
    hide Nest;
    var s, rest := "{" + inner + "}" + suffix, "}" + suffix;
    assert s[1..] == inner + rest;
    MatchConcat(inner, rest, 0);
  }

  function Grouped(prefix: string, parts: seq<string>, suffix: string): (r: seq<string>)
    ensures |r| == |parts| && forall i :: 0 <= i < |r| ==> r[i] == prefix + "::" + parts[i] + suffix
  {
    seq(|parts|, i requires 0 <= i < |parts| => prefix + "::" + parts[i] + suffix)
  }

  /** A group written with any blanks, and with any text behind it, expands to the expansions of
      its prefix, each of its parts and that text put together. */
  lemma ExpandGroup(prefix: string, pieces: seq<string>, parts: seq<string>, suffix: string)
    requires '{' !in prefix && AllSpaced(pieces, parts) && AllParts(parts) && parts != []
    ensures Expand(prefix + "::" + ("{" + Commas(pieces) + "}") + suffix) == ExpandAll(Grouped(prefix, parts, suffix))
  {
    hide Solid, IsSpace, Strip, Nest, CommaFree, Items, Braces, Commas, Part, Spaced;
    var inner := Commas(pieces);
    var content := "{" + inner + "}";
    var item := prefix + "::" + content + suffix;
    var start := |prefix| + 2;
    FindBraceConcat(prefix + "::", content + suffix);
    assert item == prefix + "::" + (content + suffix);
    CommasNest(pieces, parts);
    ClosedByNext(inner, suffix);
    assert item[start..] == content + suffix;
    assert MatchingBrace(item, start) == start + |content| - 1;
    assert item[..start - 2] == prefix && item[start - 2..start] == "::";
    assert item[start..start + |content|] == content && item[start + |content|..] == suffix;
    ItemsOfSpacedList("", pieces, "", parts, "");
    assert "" + content + "" == content;
    InnerBraces(prefix, content, suffix);
    EachGrouped(prefix, parts, suffix, Braces(item));
  }

  lemma {:induction false} EachGrouped(prefix: string, parts: seq<string>, suffix: string, bound: nat)
    requires AllParts(parts) && forall p :: p in parts ==> Braces(Inserted(prefix, p, suffix)) < bound
    ensures ExpandEach(parts, prefix, suffix, bound) == ExpandAll(Grouped(prefix, parts, suffix))
  {
    hide Expand, Braces, Nest, CommaFree, IsSpace;
    if parts != [] {
      assert parts[0] in parts;
      EachGrouped(prefix, parts[1..], suffix, bound);
      assert Grouped(prefix, parts, suffix)[1..] == Grouped(prefix, parts[1..], suffix);
    }
  }

  /** The texts of the leaf paths below a prefix. */
  ghost function Prefixed(prefix: string, paths: seq<seq<string>>): (r: seq<string>)
    ensures |r| == |paths| && forall i :: 0 <= i < |r| ==> r[i] == prefix + "::" + JoinPath(paths[i])
  {
    seq(|paths|, i requires 0 <= i < |paths| => prefix + "::" + JoinPath(paths[i]))
  }

  lemma {:induction false} LeavesNonempty(t: Tree)
    requires t.children != map[]
    ensures forall p :: p in Leaves(t) ==> p != []
  {
    LeavesUnderNonempty(t, Ascending(t.children.Keys));
  }

  lemma {:induction false} LeavesUnderNonempty(t: Tree, keys: seq<string>)
    requires forall k :: k in keys ==> k in t.children
    ensures forall p :: p in LeavesUnder(t, keys) ==> p != []
    decreases |keys|
  {
    if keys != [] {
      assert keys[0] in keys;
      LeavesUnderNonempty(t, keys[1..]);
    }
  }

  /** A prefix moves into the paths below it. */
  lemma PrefixMoves(prefix: string, k: string, paths: seq<seq<string>>)
    requires forall p :: p in paths ==> p != []
    ensures Prefixed(prefix + "::" + k, paths) == Prefixed(prefix, Under(k, paths))
  {
    hide JoinPath;
    forall i | 0 <= i < |paths|
      ensures Prefixed(prefix + "::" + k, paths)[i] == Prefixed(prefix, Under(k, paths))[i]
    {
      assert paths[i] in paths;
      JoinUnder(k, paths[i]);
      Regroup(prefix, k, JoinPath(paths[i]));
    }
  }

  lemma Regroup(a: string, b: string, c: string)
    ensures a + "::" + b + "::" + c == a + "::" + (b + "::" + c)
  {
  }

  lemma JoinUnder(k: string, p: seq<string>)
    ensures JoinPath([k] + p) == if p == [] then k else k + "::" + JoinPath(p)
  {
    assert ([k] + p)[1..] == p;
  }

  /** A prefixed printed tree expands to the prefixed texts of its leaf paths. */
  lemma {:induction false} ExpandFormat(prefix: string, t: Tree)
    requires Prefix(prefix) && PlainTree(t) && t.children != map[]
    ensures Expand(prefix + "::" + Format(t)) == Prefixed(prefix, Leaves(t))
    decreases t, 1, 0
  {
    var keys := Ascending(t.children.Keys);
    var parts := Parts(t, keys);
    FormatOfParts(t);
    FormatIsBalanced(t);
    if |keys| == 1 {
      assert keys[0] in keys;
      ExpandPart(prefix, t, keys[0]);
      assert keys == [keys[0]] && keys[1..] == [];
      assert LeavesUnder(t, keys) == Under(keys[0], Leaves(t.children[keys[0]]));
    } else {
      ExpandBracedList(prefix, parts);
      ExpandParts(prefix, t, keys, Braces(prefix + "::" + Format(t)));
    }
  }

  lemma {:induction false} ExpandPart(prefix: string, t: Tree, k: string)
    requires Prefix(prefix) && PlainTree(t) && k in t.children
    ensures Expand(prefix + "::" + PartOf(t, k)) == Prefixed(prefix, Under(k, Leaves(t.children[k])))
    decreases t, 0, 0
  {
    hide Expand, Format, Leaves, Solid, Nest, CommaFree, Prefixed, Under;
    var sub := t.children[k];
    assert PlainSegment(k) && PlainTree(sub);
    if sub.children == map[] {
      ExpandPlain(prefix + "::" + k);
      LeafAlone(sub, k);
      PrefixedLeaf(prefix, k);
    } else {
      FormatIsBalanced(sub);
      NotEmptyText(sub);
      ExpandFormat(prefix + "::" + k, sub);
      LeavesNonempty(sub);
      PrefixMoves(prefix, k, Leaves(sub));
      assert prefix + "::" + (k + "::" + Format(sub)) == prefix + "::" + k + "::" + Format(sub);
    }
  }

  lemma NotEmptyText(t: Tree)
    requires Solid(Format(t))
    ensures Format(t) != ""
  {
  }

  lemma PrefixedLeaf(prefix: string, k: string)
    ensures Prefixed(prefix, [[k]]) == [prefix + "::" + k]
  {
    assert JoinPath([k]) == k;
  }

  lemma LeafAlone(sub: Tree, k: string)
    requires sub.children == map[]
    ensures Under(k, Leaves(sub)) == [[k]] && Texts([[k]]) == [k]
  {
    assert [k] + [] == [k] && JoinPath([k]) == k;
  }

  lemma {:induction false} ExpandParts(prefix: string, t: Tree, keys: seq<string>, bound: nat)
    requires Prefix(prefix) && PlainTree(t) && forall k :: k in keys ==> k in t.children
    requires forall p :: p in Parts(t, keys) ==> Braces(Inserted(prefix, p, "")) < bound
    ensures ExpandEach(Parts(t, keys), prefix, "", bound) == Prefixed(prefix, LeavesUnder(t, keys))
    decreases t, 0, 1 + |keys|
  {
    hide Expand, Format, Leaves, PartOf, IsSpace, PlainTree, Braces, Prefixed;
    if keys == [] {
      assert Prefixed(prefix, []) == [];
    } else {
      var k := keys[0];
      assert k in keys;
      var part, parts := PartOf(t, k), Parts(t, keys);
      assert parts == [part] + Parts(t, keys[1..]) && parts[0] in parts && parts[1..] == Parts(t, keys[1..]);
      PartIsPart(t, k);
      ExpandPart(prefix, t, k);
      ExpandParts(prefix, t, keys[1..], bound);
      assert Inserted(prefix, part, "") == prefix + "::" + part;
      PrefixedConcat(prefix, Under(k, Leaves(t.children[k])), LeavesUnder(t, keys[1..]));
    }
  }

  lemma PrefixedConcat(prefix: string, a: seq<seq<string>>, b: seq<seq<string>>)
    ensures Prefixed(prefix, a + b) == Prefixed(prefix, a) + Prefixed(prefix, b)
  {
  }

  lemma TextsConcat(a: seq<seq<string>>, b: seq<seq<string>>)
    ensures Texts(a + b) == Texts(a) + Texts(b)
  {
  }

  lemma {:induction false} ExpandTopParts(t: Tree, keys: seq<string>)
    requires PlainTree(t) && forall k :: k in keys ==> k in t.children
    ensures ExpandAll(Parts(t, keys)) == Texts(LeavesUnder(t, keys))
    decreases |keys|
  {
    hide Expand, Format, Leaves, PartOf, IsSpace, PlainTree, Texts;
    if keys == [] {
      assert Texts([]) == [];
    } else {
      var k := keys[0];
      assert k in keys;
      ExpandTopPart(t, k);
      ExpandTopParts(t, keys[1..]);
      assert Parts(t, keys)[1..] == Parts(t, keys[1..]);
      TextsConcat(Under(k, Leaves(t.children[k])), LeavesUnder(t, keys[1..]));
    }
  }

  lemma ExpandTopPart(t: Tree, k: string)
    requires PlainTree(t) && k in t.children
    ensures Expand(PartOf(t, k)) == Texts(Under(k, Leaves(t.children[k])))
  {
    hide Expand, Format, Leaves, IsSpace;
    var sub := t.children[k];
    assert PlainSegment(k) && PlainTree(sub);
    if sub.children == map[] {
      ExpandPlain(k);
      LeafAlone(sub, k);
    } else {
      FormatIsBalanced(sub);
      ExpandFormat(k, sub);
      LeavesNonempty(sub);
      forall i | 0 <= i < |Leaves(sub)|
        ensures Prefixed(k, Leaves(sub))[i] == Texts(Under(k, Leaves(sub)))[i]
      {
        assert Leaves(sub)[i] in Leaves(sub);
        JoinUnder(k, Leaves(sub)[i]);
      }
      assert Prefixed(k, Leaves(sub)) == Texts(Under(k, Leaves(sub)));
    }
  }

  /** Splitting and expanding a printed tree lists the texts of its leaf paths in printing order. */
  lemma ExpandPrinted(t: Tree)
    requires PlainTree(t) && t.children != map[]
    ensures ExpandAll(Items(Format(t))) == Texts(Leaves(t))
  {
    hide Format, Items, PartOf, PlainTree, IsSpace, Nest, CommaFree;
    var keys := Ascending(t.children.Keys);
    FormatOfParts(t);
    FormatIsBalanced(t);
    var parts := Parts(t, keys);
    if |keys| == 1 {
      assert keys[1..] == [] && keys[0] in keys;
      PartIsPart(t, keys[0]);
      ItemsOfPart(parts[0]);
      assert parts == [parts[0]];
    } else {
      ItemsOfBracedList(parts);
    }
    ExpandTopParts(t, keys);
  }

  // ---------- the leaves of a built tree ----------

  ghost predicate NoDuplicates<T(!new)>(s: seq<T>) {
    forall i, j :: 0 <= i < j < |s| ==> s[i] != s[j]
  }

  lemma {:induction false} LeavesExact(t: Tree)
    ensures forall p :: p in Leaves(t) <==> IsLeaf(t, p)
    ensures NoDuplicates(Leaves(t))
    decreases t, 1, 0
  {
    var keys := Ascending(t.children.Keys);
    if t.children != map[] {
      forall i, j | 0 <= i < j < |keys| ensures keys[i] != keys[j] {
        LessTotal(keys[i], keys[j]);
      }
      LeavesUnderExact(t, keys);
    }
  }

  lemma {:induction false} LeavesUnderExact(t: Tree, keys: seq<string>)
    requires NoDuplicates(keys) && forall k :: k in keys ==> k in t.children
    ensures forall p :: p in LeavesUnder(t, keys) <==> p != [] && p[0] in keys && IsLeaf(t.children[p[0]], p[1..])
    ensures NoDuplicates(LeavesUnder(t, keys))
    decreases t, 0, |keys|
  {
    hide Leaves, IsLeaf;
    if keys != [] {
      var k := keys[0];
      assert k in keys && k !in keys[1..];
      var here := Leaves(t.children[k]);
      LeavesExact(t.children[k]);
      LeavesUnderExact(t, keys[1..]);
      var first, others := Under(k, here), LeavesUnder(t, keys[1..]);
      forall p ensures p in first <==> p != [] && p[0] == k && IsLeaf(t.children[k], p[1..]) {
        InUnder(k, here, p);
      }
      forall i, j | 0 <= i < j < |first| ensures first[i] != first[j] {
        assert first[i][1..] == here[i] && first[j][1..] == here[j];
      }
      forall i, j | 0 <= i < |first| && 0 <= j < |others| ensures first[i] != others[j] {
        assert first[i] in first && others[j] in others;
      }
      forall p ensures p in LeavesUnder(t, keys) <==> p in first || p in others {
      }
    }
  }

  lemma InUnder(k: string, paths: seq<seq<string>>, p: seq<string>)
    ensures p in Under(k, paths) <==> p != [] && p[0] == k && p[1..] in paths
  {
    var r := Under(k, paths);
    if p in r {
      var i :| 0 <= i < |r| && r[i] == p;
      assert p[1..] == paths[i];
    }
    if p != [] && p[0] == k && p[1..] in paths {
      var i :| 0 <= i < |paths| && paths[i] == p[1..];
      assert r[i] == [k] + p[1..] == p;
    }
  }

  ghost predicate PlainPaths(items: seq<string>) {
    forall item :: item in items ==> PlainPath(item)
  }

  lemma PlainPathText(item: string)
    requires PlainPath(item)
    ensures item != "" && '{' !in item && JoinPath(SplitPath(item)) == item
  {
    JoinOfSplit(item, "");
    assert "" + item == item;
    JoinWithoutBraces(SplitPath(item));
    assert "" + "" == "" && SplitPath("") == [""] && [""][0] in [""];
  }

  lemma {:induction false} ExpandAllPlain(items: seq<string>)
    requires PlainPaths(items)
    ensures ExpandAll(items) == items
  {
    if items != [] {
      assert items[0] in items;
      PlainPathText(items[0]);
      ExpandPlain(items[0]);
      ExpandAllPlain(items[1..]);
      assert items == [items[0]] + items[1..];
    }
  }

  ghost predicate PrefixOfSome(q: seq<string>, items: seq<string>) {
    exists item :: item in items && q <= SplitPath(item)
  }

  lemma {:induction false} HasPathInsertAll(t: Tree, items: seq<string>, q: seq<string>)
    requires PlainPaths(items)
    ensures HasPath(InsertAll(t, items), q) <==> HasPath(t, q) || PrefixOfSome(q, items)
    decreases |items|
  {
    if items != [] {
      assert items[0] in items;
      PlainPathText(items[0]);
      HasPathInsert(t, SplitPath(items[0]), q);
      HasPathInsertAll(InsertItem(t, items[0]), items[1..], q);
      assert PrefixOfSome(q, items) <==> q <= SplitPath(items[0]) || PrefixOfSome(q, items[1..]) by {
        assert forall item :: item in items <==> item == items[0] || item in items[1..];
      }
    }
  }

  lemma {:induction false} InsertPlain(t: Tree, path: seq<string>)
    requires PlainTree(t) && forall s :: s in path ==> PlainSegment(s)
    ensures PlainTree(Insert(t, path))
    decreases |path|
  {
    if path != [] {
      assert path[0] in path;
      var child := if path[0] in t.children then t.children[path[0]] else EMPTY;
      InsertPlain(child, path[1..]);
    }
  }

  lemma {:induction false} InsertAllPlain(t: Tree, items: seq<string>)
    requires PlainTree(t) && PlainPaths(items)
    ensures PlainTree(InsertAll(t, items))
    decreases |items|
  {
    if items != [] {
      assert items[0] in items;
      PlainPathText(items[0]);
      InsertPlain(t, SplitPath(items[0]));
      InsertAllPlain(InsertItem(t, items[0]), items[1..]);
    }
  }

  /** The built tree holds exactly the prefixes of the paths. */
  lemma BuiltTree(items: seq<string>)
    requires PlainPaths(items)
    ensures PlainTree(Build(items))
    ensures forall q :: HasPath(Build(items), q) <==> q == [] || PrefixOfSome(q, items)
  {
    ExpandAllPlain(items);
    InsertAllPlain(EMPTY, items);
    forall q ensures HasPath(Build(items), q) <==> q == [] || PrefixOfSome(q, items) {
      HasPathInsertAll(EMPTY, items, q);
    }
  }

  /** `item` is given and no given path goes on below it. */
  ghost predicate Maximal(item: string, items: seq<string>) {
    item in items && !exists other :: other in items && SplitPath(item) < SplitPath(other)
  }

  lemma LeafIffMaximal(items: seq<string>, p: seq<string>)
    requires PlainPaths(items) && items != []
    ensures IsLeaf(Build(items), p) <==> Maximal(JoinPath(p), items) && SplitPath(JoinPath(p)) == p
  {
    hide Build, SplitPath, JoinPath, IsLeaf, HasPath, PlainTree;
    var t := Build(items);
    BuiltTree(items);
    LeafIffNoChild(t, p);
    if IsLeaf(t, p) {
      assert items[0] in items;
      forall other | other in items ensures !(p < SplitPath(other)) {
        NextStep(items, p, other);
      }
      var item :| item in items && p <= SplitPath(item);
      PlainPathText(item);
      assert p == SplitPath(item);
    }
    if Maximal(JoinPath(p), items) && SplitPath(JoinPath(p)) == p {
      forall k, other | other in items ensures !(p + [k] <= SplitPath(other)) {
        assert p + [k] <= SplitPath(other) ==> p < SplitPath(other);
      }
    }
  }

  lemma NextStep(items: seq<string>, p: seq<string>, other: string)
    requires PlainPaths(items) && other in items
    ensures p < SplitPath(other) ==> exists k :: HasPath(Build(items), p + [k])
  {
    hide Build, SplitPath, HasPath;
    BuiltTree(items);
    var path := SplitPath(other);
    if p < path {
      assert p + [path[|p|]] <= path;
      assert HasPath(Build(items), p + [path[|p|]]);
    }
  }

  // ---------- the round trip ----------

  ghost function PrintedAndExpanded(items: seq<string>): seq<string> {
    ExpandAll(Items(Format(Build(items))))
  }

  /** Printing the tree of any list of plain paths, then splitting and expanding the text, gives
      exactly the listed paths that no listed path strictly extends, each once. */
  lemma RoundTrip(items: seq<string>)
    requires PlainPaths(items)
    ensures NoDuplicates(PrintedAndExpanded(items))
    ensures forall item :: item in PrintedAndExpanded(items) <==> Maximal(item, items)
  {
    hide Build, SplitPath, JoinPath, IsLeaf, HasPath, PlainTree, Leaves, Format, Items, ExpandAll;
    var t := Build(items);
    var out := PrintedAndExpanded(items);
    if items == [] {
      NothingPrinted();
    } else {
      BuiltTree(items);
      RootHasChildren(items);
      ExpandPrinted(t);
      LeavesExact(t);
      var leaves := Leaves(t);
      forall i | 0 <= i < |leaves| ensures SplitPath(out[i]) == leaves[i] && Maximal(out[i], items) {
        assert leaves[i] in leaves;
        LeafIffMaximal(items, leaves[i]);
      }
      forall item | Maximal(item, items) ensures item in out {
        PlainPathText(item);
        LeafIffMaximal(items, SplitPath(item));
        var i :| 0 <= i < |leaves| && leaves[i] == SplitPath(item);
        assert out[i] == item;
      }
      forall item | item in out ensures Maximal(item, items) {
        var i :| 0 <= i < |out| && out[i] == item;
        assert 0 <= i < |leaves|;
      }
    }
  }

  lemma RootHasChildren(items: seq<string>)
    requires PlainPaths(items) && items != []
    ensures Build(items).children != map[]
  {
    assert items[0] in items;
    LeafIffMaximal(items, []);
    if IsLeaf(Build(items), []) {
      PlainPathText(JoinPath([]));
    }
  }

  lemma NothingPrinted()
    ensures PrintedAndExpanded([]) == []
  {
    assert ExpandAll([]) == [] && Build([]) == EMPTY && Format(EMPTY) == "" && Items("") == [];
  }

  ghost predicate PrefixFree(items: seq<string>) {
    forall a, b :: a in items && b in items ==> !(SplitPath(a) < SplitPath(b))
  }

  /** The printed text stands for the same set of paths exactly when no path is a strict prefix
      of another: a path and a path below it cannot both be printed. */
  lemma RoundTripIffPrefixFree(items: seq<string>)
    requires PlainPaths(items)
    ensures (forall item :: item in PrintedAndExpanded(items) <==> item in items) <==> PrefixFree(items)
  {
    RoundTrip(items);
    if !PrefixFree(items) {
      var a, b :| a in items && b in items && SplitPath(a) < SplitPath(b);
      assert !Maximal(a, items);
    }
  }

  /** Formatting is idempotent: the tree of what was printed prints the same text. */
  lemma PrintingIsIdempotent(items: seq<string>)
    requires PlainPaths(items)
    ensures PlainPaths(PrintedAndExpanded(items))
    ensures Build(PrintedAndExpanded(items)) == Build(items)
    ensures Format(Build(PrintedAndExpanded(items))) == Format(Build(items))
  {
    hide Build, SplitPath, HasPath, PlainTree, Format, PrintedAndExpanded;
    var out := PrintedAndExpanded(items);
    RoundTrip(items);
    BuiltTree(items);
    BuiltTree(out);
    forall q ensures PrefixOfSome(q, items) <==> PrefixOfSome(q, out) {
      if PrefixOfSome(q, items) {
        var item :| item in items && q <= SplitPath(item);
        var m := MaximalAbove(items, item);
        assert q <= SplitPath(m) && m in out;
      }
    }
    TreesEqual(Build(out), Build(items));
  }

  /** Every path is below some maximal one: follow extensions, which get longer, to the end. */
  lemma {:induction false} MaximalAbove(items: seq<string>, item: string) returns (m: string)
    requires item in items
    ensures Maximal(m, items) && SplitPath(item) <= SplitPath(m)
    decreases Longest(items) - |SplitPath(item)|
  {
    LongestBounds(items, item);
    if Maximal(item, items) {
      m := item;
    } else {
      var other :| other in items && SplitPath(item) < SplitPath(other);
      LongestBounds(items, other);
      m := MaximalAbove(items, other);
    }
  }

  function Longest(items: seq<string>): nat {
    if items == [] then 0
    else
      var n, rest := |SplitPath(items[0])|, Longest(items[1..]);
      if n > rest then n else rest
  }

  lemma {:induction false} LongestBounds(items: seq<string>, item: string)
    requires item in items
    ensures |SplitPath(item)| <= Longest(items)
  {
    if item != items[0] {
      LongestBounds(items[1..], item);
    }
  }

  // ---------- what is printed ----------

  lemma OnlyKey(k: string)
    ensures Ascending({k}) == [k]
  {
    AscendsUnique(Ascending({k}), [k]);
  }

  /** A single path is printed as it is, without braces. */
  lemma {:induction false} PathPrints(path: seq<string>)
    requires PlainSegments(path)
    ensures PlainTree(Insert(EMPTY, path)) && Format(Insert(EMPTY, path)) == JoinPath(path)
    decreases |path|
  {
    hide Format, PlainSegment, IsLeaf, Ascending;
    var t := Insert(EMPTY, path);
    assert path[0] in path;
    var below := Insert(EMPTY, path[1..]);
    assert t.children == map[path[0] := below];
    if |path| > 1 {
      PathPrints(path[1..]);
      assert below.children != map[];
      JoinNotEmpty(path[1..]);
    }
    FormatOfParts(t);
    OnlyKey(path[0]);
  }

  lemma JoinNotEmpty(path: seq<string>)
    requires PlainSegments(path)
    ensures JoinPath(path) != ""
  {
    assert path[0] in path;
  }

  /** Every name but the first has a blank in front. */
  function Blanked(names: seq<string>): (r: seq<string>)
    ensures |r| == |names| && forall i :: 0 < i < |r| ==> r[i] == " " + names[i]
    ensures names != [] ==> r[0] == names[0]
  {
    seq(|names|, i requires 0 <= i < |names| => if i == 0 then names[0] else " " + names[i])
  }

  lemma {:induction false} JoinIsCommas(names: seq<string>)
    ensures Join(names) == Commas(Blanked(names))
    ensures names != [] ==> " " + Join(names) == Commas(seq(|names|, i requires 0 <= i < |names| => " " + names[i]))
  {
    if |names| > 1 {
      JoinIsCommas(names[1..]);
      var spaced := seq(|names|, i requires 0 <= i < |names| => " " + names[i]);
      var rest := seq(|names[1..]|, i requires 0 <= i < |names[1..]| => " " + names[1..][i]);
      assert Blanked(names)[1..] == rest && spaced[1..] == rest;
      assert names[0] + ", " + Join(names[1..]) == names[0] + "," + (" " + Join(names[1..]));
      assert " " + Join(names) == " " + names[0] + "," + (" " + Join(names[1..]));
    }
  }

  lemma {:induction false} LeafParts(t: Tree, keys: seq<string>)
    requires forall k :: k in keys ==> k in t.children && t.children[k] == EMPTY
    ensures Parts(t, keys) == keys
  {
    if keys != [] {
      assert keys[0] in keys;
      LeafParts(t, keys[1..]);
    }
  }

  /** Two or more names are printed in ascending order, between braces, each but the first after a
      comma and a blank. */
  lemma NamesPrint(t: Tree)
    requires PlainTree(t) && |t.children| >= 2 && forall k :: k in t.children ==> t.children[k] == EMPTY
    ensures Format(t) == "{" + Commas(Blanked(Ascending(t.children.Keys))) + "}"
  {
    hide Format, Ascending, PlainTree;
    var keys := Ascending(t.children.Keys);
    FormatOfParts(t);
    LeafParts(t, keys);
    JoinIsCommas(keys);
  }

  // ---------- the prefix itself among the items ----------

  /** The items that name something below the prefix; the empty item is the prefix itself. */
  function Named(items: seq<string>): seq<string> {
    if items == [] then [] else (if items[0] == "" then [] else [items[0]]) + Named(items[1..])
  }

  ghost predicate PlainOrEmpty(items: seq<string>) {
    forall item :: item in items ==> item == "" || PlainPath(item)
  }

  function WithSelf(t: Tree): Tree { Node(t.children["" := EMPTY]) }

  lemma {:induction false} NamedPlain(items: seq<string>)
    requires PlainOrEmpty(items)
    ensures PlainPaths(Named(items)) && ExpandAll(items) == items
  {
    hide Expand, PlainPath;
    if items != [] {
      assert items[0] in items;
      NamedPlain(items[1..]);
      NothingToExpand();
      if items[0] != "" {
        PlainPathText(items[0]);
        ExpandPlain(items[0]);
      }
      assert items == [items[0]] + items[1..];
    }
  }

  lemma InsertBesideSelf(t: Tree, item: string)
    requires PlainPath(item)
    ensures InsertItem(WithSelf(t), item) == WithSelf(InsertItem(t, item))
  {
    PlainPathText(item);
    var path := SplitPath(item);
    assert path[0] in path;
    assert path[0] != "";
    var u := InsertItem(t, item);
    assert InsertItem(WithSelf(t), item).children == WithSelf(u).children;
  }

  lemma {:induction false} InsertAllBesideSelf(t: Tree, items: seq<string>)
    requires PlainOrEmpty(items)
    ensures InsertAll(WithSelf(t), items) == WithSelf(InsertAll(t, Named(items)))
    ensures "" in items ==> InsertAll(t, items) == WithSelf(InsertAll(t, Named(items)))
    decreases |items|
  {
    hide SplitPath;
    if items != [] {
      var item, rest := items[0], items[1..];
      assert item in items;
      if item == "" {
        assert [] + Named(rest) == Named(rest);
        assert WithSelf(WithSelf(t)) == WithSelf(t);
        InsertAllBesideSelf(t, rest);
      } else {
        InsertBesideSelf(t, item);
        InsertAllBesideSelf(InsertItem(t, item), rest);
        assert Named(items)[0] == item && Named(items)[1..] == Named(rest);
      }
    }
  }

  lemma {:induction false} PartsBesideSelf(t: Tree, keys: seq<string>)
    requires forall k :: k in keys ==> k in t.children && k != ""
    ensures Parts(WithSelf(t), keys) == Parts(t, keys)
  {
    if keys != [] {
      assert keys[0] in keys;
      PartsBesideSelf(t, keys[1..]);
    }
  }

  lemma NothingToExpand()
    ensures Expand("") == [""]
  {
  }

  lemma FormatKeysWithSelf(t: Tree, keys: seq<string>)
    requires keys != [] && forall k :: k in keys ==> k in t.children
    ensures FormatKeys(t, true, keys) == "{" + Join(["self"] + Parts(t, keys)) + "}"
  {
    hide Join, PartOf, Parts;
  }

  lemma SelfAmongKeys(t: Tree)
    requires "" !in t.children
    ensures var u := WithSelf(t);
            Format(u) == FormatKeys(u, true, Ascending(t.children.Keys)) && forall k :: k in t.children
                                                                                        ==> k in u.children && k != ""
  {
    var u := WithSelf(t);
    hide FormatKeys, Ascending;
    assert u.children != map[];
    assert u.children.Keys - {""} == t.children.Keys;
  }

  lemma SomeKeys(t: Tree)
    ensures t.children == map[] <==> Ascending(t.children.Keys) == []
  {
    hide Ascending;
    var keys := Ascending(t.children.Keys);
    if t.children != map[] {
      var k :| k in t.children;
      assert k in keys;
    } else {
      assert forall k :: k !in keys;
    }
  }

  lemma FormatBesideSelf(t: Tree)
    requires PlainTree(t)
    ensures Format(WithSelf(t)) == if t.children == map[] then ""
                                   else "{" + Join(["self"] + Parts(t, Ascending(t.children.Keys))) + "}"
  {
    KeysOf(t);
    hide PlainTree, Ascending, Join, Format, FormatKeys, Parts, WithSelf;
    var keys := Ascending(t.children.Keys);
    SomeKeys(t);
    SelfAmongKeys(t);
    if keys == [] {
      NoKeys(WithSelf(t), true);
    } else {
      PartsBesideSelf(t, keys);
      FormatKeysWithSelf(WithSelf(t), keys);
    }
  }

  lemma NoKeys(t: Tree, hasSelf: bool)
    ensures FormatKeys(t, hasSelf, []) == ""
  {
  }

  lemma ExpandBesideSelf(t: Tree)
    requires PlainTree(t) && t.children != map[]
    ensures ExpandAll(Items(Format(WithSelf(t)))) == ["self"] + ExpandAll(Items(Format(t)))
  {
    hide Format, Items, PartOf, PlainTree, IsSpace, Nest, CommaFree, PlainSegment, Expand, Leaves;
    var keys := Ascending(t.children.Keys);
    var parts := Parts(t, keys);
    FormatBesideSelf(t);
    FormatIsBalanced(t);
    SelfIsSegment();
    SegmentIsPart("self");
    ItemsOfBracedList(["self"] + parts);
    ExpandPlain("self");
    assert (["self"] + parts)[1..] == parts;
    ExpandTopParts(t, keys);
    ExpandPrinted(t);
    LeavesAreUnder(t);
  }

  lemma SelfIsSegment()
    ensures PlainSegment("self")
  {
  }

  lemma LeavesAreUnder(t: Tree)
    requires t.children != map[]
    ensures Leaves(t) == LeavesUnder(t, Ascending(t.children.Keys))
  {
  }

  /** An item that is the prefix itself comes back as `self`, in front; standing alone it is lost. */
  lemma SelfIsPrinted(items: seq<string>)
    requires PlainOrEmpty(items) && "" in items
    ensures PrintedAndExpanded(items) == if Named(items) == [] then [] else ["self"] + PrintedAndExpanded(Named(items))
  {
    hide Format, Items, PlainTree, ExpandAll;
    NamedPlain(items);
    ExpandAllPlain(Named(items));
    InsertAllBesideSelf(EMPTY, items);
    var t := Build(Named(items));
    assert Build(items) == WithSelf(t);
    BuiltTree(Named(items));
    if Named(items) == [] {
      FormatBesideSelf(t);
      NothingPrinted();
      NothingExpanded();
    } else {
      RootHasChildren(Named(items));
      ExpandBesideSelf(t);
    }
  }

  lemma NothingExpanded()
    ensures ExpandAll(Items("")) == []
  {
  }
}
