/** Validated resource addresses (`ir/newtypes.rs`): the allowlist, bracket balance, and the module
    segments at the front of an address. */
module Addresses {
  import opened Ir
  import opened Text
  import opened Seqs

  const ADDRESS_MAX_BYTES := 1024

  predicate IsAddressChar(c: char) {
    || 'A' <= c <= 'Z' || 'a' <= c <= 'z' || '0' <= c <= '9'
    || c in {'_', '.', '/', '-', '[', ']', '"'}
  }

  /** The scanner's state between two characters. */
  datatype Scan = Scan(depth: nat, inQuotes: bool)

  function Advance(st: Scan, c: char): Option<Scan> {
    if c == '"' then Some(st.(inQuotes := !st.inQuotes))
    else if st.inQuotes then Some(st)
    else if c == '[' then Some(st.(depth := st.depth + 1))
    else if c == ']' then (if st.depth == 0 then None else Some(st.(depth := st.depth - 1)))
    else Some(st)
  }

  /** The state after `s`, or `None` once a bracket closes that was never opened. */
  function Run(st: Scan, s: string): Option<Scan>
    decreases |s|
  {
    if s == [] then Some(st)
    else
      match Advance(st, s[0])
      case None => None
      case Some(next) => Run(next, s[1..])
  }

  predicate Balanced(s: string) {
    Run(Scan(0, false), s) == Some(Scan(0, false))
  }

  /** `brackets_and_quotes_balanced` */
  method BracketsAndQuotesBalanced(s: string) returns (b: bool)
    ensures b == Balanced(s)
  {
    var bracketDepth: int := 0;
    var inQuotes := false;
    var i := 0;
    assert s[0..] == s;
    while i < |s|
      invariant 0 <= i <= |s| && 0 <= bracketDepth
      invariant Run(Scan(0, false), s) == Run(Scan(bracketDepth, inQuotes), s[i..])
    {
      assert s[i..][1..] == s[i + 1..];
      if s[i] == '[' && !inQuotes {
        bracketDepth := bracketDepth + 1;
      } else if s[i] == ']' && !inQuotes {
        bracketDepth := bracketDepth - 1;
        if bracketDepth < 0 {
          return false;
        }
      } else if s[i] == '"' {
        inQuotes := !inQuotes;
      }
      i := i + 1;
    }
    return bracketDepth == 0 && !inQuotes;
  }

  predicate ValidAddress(s: string) {
    && s != "" && |s| <= ADDRESS_MAX_BYTES
    && (forall i :: 0 <= i < |s| ==> IsAddressChar(s[i]))
    && Balanced(s)
  }

  // ---- module segments ------------------------------------------------------------------------

  const MODULE := "module."

  /** One step of the segment iterator: the segment, and what follows it. */
  function NextSegment(rest: string): (r: Option<(string, string)>)
    ensures r.Some? ==> |r.value.1| < |rest| && '.' !in r.value.0
  {
    if !StartsWith(rest, MODULE) then None
    else
      var tail := rest[|MODULE|..];
      var dot := IndexOf(tail, '.');
      if dot == |tail| then None else Some((tail[..dot], tail[dot + 1..]))
  }

  /** All leading module segments, and the remainder. */
  function SplitModules(s: string): (seq<string>, string)
    decreases |s|
  {
    match NextSegment(s)
    case None => ([], s)
    case Some((segment, rest)) =>
      var (more, last) := SplitModules(rest);
      ([segment] + more, last)
  }

  class ModuleSegments {
    var rest: string

    constructor (address: string)
      ensures rest == address
    {
      rest := address;
    }

    method Next() returns (segment: Option<string>)
      modifies this
      ensures match NextSegment(old(rest))
              case Some((name, after)) => segment == Some(name) && rest == after
              case None => segment == None && rest == old(rest)
    {
      if !StartsWith(rest, MODULE) {
        return None;
      }
      var tail := rest[|MODULE|..];
      var dot := IndexOf(tail, '.');
      if dot == |tail| {
        return None;
      }
      rest := tail[dot + 1..];
      return Some(tail[..dot]);
    }
  }

  /** `module_path`: the segments joined by dots. */
  method ModulePath(address: string) returns (out: string)
    ensures out == JoinSegments("", SplitModules(address).0)
  {
    out := "";
    var iter := new ModuleSegments(address);
    var segment := iter.Next();
    while segment.Some?
      invariant segment.Some? ==> JoinSegments("", SplitModules(address).0) ==
                                  JoinSegments(out, [segment.value] + SplitModules(iter.rest).0)
      invariant segment.None? ==> JoinSegments("", SplitModules(address).0) == out
      decreases segment.Some?, |iter.rest|
    {
      ghost var more := SplitModules(iter.rest).0;
      assert ([segment.value] + more)[1..] == more;
      if out != "" {
        out := out + ".";
      }
      out := out + segment.value;
      segment := iter.Next();
    }
  }

  /** The accumulation of `module_path`: the dot goes in only once something is there. */
  function JoinSegments(out: string, segments: seq<string>): string
    decreases |segments|
  {
    if segments == [] then out
    else JoinSegments((if out == "" then "" else out + ".") + segments[0], segments[1..])
  }

  /** `resource_part`: what is left once every module segment is drained. */
  method ResourcePart(address: string) returns (rest: string)
    ensures rest == SplitModules(address).1
  {
    var iter := new ModuleSegments(address);
    var segment := iter.Next();
    while segment.Some?
      invariant SplitModules(address).1 == SplitModules(iter.rest).1
      invariant segment.None? ==> NextSegment(iter.rest).None?
      decreases segment.Some?, |iter.rest|
    {
      segment := iter.Next();
    }
    rest := iter.rest;
  }

  // ---- prefixes -------------------------------------------------------------------------------

  /** The address prefix of nested module calls, outermost first when rendered. */
  datatype Prefix = Root | Step(parent: Prefix, name: string, index: Option<string>)

  function StepSegment(p: Prefix): string
    requires p.Step?
  {
    p.name + (if p.index.Some? then p.index.value else "")
  }

  function Render(p: Prefix): string {
    match p
    case Root => ""
    case Step(parent, _, _) =>
      var front := Render(parent);
      (if front == "" then "" else front + ".") + MODULE + StepSegment(p)
  }

  /** The segments a prefix stands for. */
  function PrefixSegments(p: Prefix): seq<string> {
    match p
    case Root => []
    case Step(parent, _, _) => PrefixSegments(parent) + [StepSegment(p)]
  }

  function Prefixed(address: string, p: Prefix): string {
    if p.Root? then address else Render(p) + "." + address
  }

  /** `prefix_address`: `None` when the combined string fails validation. */
  function PrefixAddress(address: string, p: Prefix): Option<string> {
    if p.Root? then Some(address)
    else if ValidAddress(Prefixed(address, p)) then Some(Prefixed(address, p))
    else None
  }

  lemma RenderedNonEmpty(p: Prefix)
    ensures Render(p) == "" <==> p.Root?
  {
  }

  lemma {:induction false} PrefixedStep(address: string, p: Prefix)
    requires p.Step?
    ensures Prefixed(address, p) == Prefixed(MODULE + (StepSegment(p) + ("." + address)), p.parent)
  {
    RenderedNonEmpty(p.parent);
    var front := Render(p.parent);
    if p.parent.Step? {
      calc {
        Prefixed(address, p);
        ((front + ".") + MODULE + StepSegment(p)) + "." + address;
        { assert (((front + ".") + MODULE + StepSegment(p)) + "." + address)
               == (front + ".") + (MODULE + (StepSegment(p) + ("." + address))); }
        (front + ".") + (MODULE + (StepSegment(p) + ("." + address)));
      }
    } else {
      assert "" + MODULE + StepSegment(p) + "." + address == MODULE + (StepSegment(p) + ("." + address));
    }
  }

  lemma SplitOneModule(segment: string, rest: string)
    requires '.' !in segment
    ensures NextSegment(MODULE + (segment + ("." + rest))) == Some((segment, rest))
  {
    var s := MODULE + (segment + ("." + rest));
    var tail := segment + ("." + rest);
    assert s[|MODULE|..] == tail && MODULE <= s;
    IndexOfFirst(tail, '.', |segment|);
    assert tail[..|segment|] == segment && tail[|segment| + 1..] == rest;
  }

  lemma {:induction false} SplitPrefixed(address: string, p: Prefix)
    requires forall seg :: seg in PrefixSegments(p) ==> '.' !in seg
    ensures SplitModules(Prefixed(address, p)) ==
              (PrefixSegments(p) + SplitModules(address).0, SplitModules(address).1)
    decreases p
  {
    if p.Step? {
      hide Prefixed, Render;
      var seg := StepSegment(p);
      var inner := MODULE + (seg + ("." + address));
      assert PrefixSegments(p)[|PrefixSegments(p)| - 1] == seg;
      forall g | g in PrefixSegments(p.parent) ensures '.' !in g { assert g in PrefixSegments(p); }
      PrefixedStep(address, p);
      SplitPrefixed(inner, p.parent);
      SplitOneModule(seg, address);
      assert SplitModules(inner) == ([seg] + SplitModules(address).0, SplitModules(address).1);
      ConcatAssoc(PrefixSegments(p.parent), [seg], SplitModules(address).0);
    } else {
      assert PrefixSegments(p) + SplitModules(address).0 == SplitModules(address).0;
    }
  }

  lemma {:induction false} SegmentsAreDotless(s: string)
    ensures forall seg :: seg in SplitModules(s).0 ==> '.' !in seg
    decreases |s|
  {
    if NextSegment(s).Some? { SegmentsAreDotless(NextSegment(s).value.1); }
  }

  /** Prefixing and parsing undo each other: the segments come back in front of the address's own,
      exactly when no segment contains a dot. */
  lemma PrefixRoundTrip(address: string, p: Prefix)
    ensures SplitModules(Prefixed(address, p)) ==
              (PrefixSegments(p) + SplitModules(address).0, SplitModules(address).1)
            <==> forall seg :: seg in PrefixSegments(p) ==> '.' !in seg
  {
    if forall seg :: seg in PrefixSegments(p) ==> '.' !in seg {
      SplitPrefixed(address, p);
    } else {
      SegmentsAreDotless(Prefixed(address, p));
      var seg :| seg in PrefixSegments(p) && '.' in seg;
      assert seg in PrefixSegments(p) + SplitModules(address).0;
    }
  }

  /** A segment with a dot is cut at its first one; the rest joins the resource part. */
  lemma DottedSegmentIsCut(address: string, p: Prefix, front: string, back: string)
    requires p.Step? && p.parent.Root? && StepSegment(p) == front + ("." + back) && '.' !in front
    requires !StartsWith(back + ("." + address), MODULE)
    ensures SplitModules(Prefixed(address, p)) == ([front], back + ("." + address))
  {
    hide StartsWith, StepSegment;
    var rest := back + ("." + address);
    PrefixedStep(address, p);
    assert (front + ("." + back)) + ("." + address) == front + ("." + rest);
    SplitOneModule(front, rest);
    assert SplitModules(rest) == ([], rest);
    assert [front] + [] == [front];
  }

  /** So a `for_each` key with a dot breaks the round trip. */
  lemma DottedKeySplits()
    ensures var p := Step(Root, "m", Some(KeyIndex("a.b")));
            && PrefixSegments(p) == ["m[\"a.b\"]"]
            && SplitModules(Prefixed("t.n", p)) == (["m[\"a"], "b\"].t.n")
  {
    var p := Step(Root, "m", Some(KeyIndex("a.b")));
    EscapedPlain("a.b");
    assert StepSegment(p) == "m[\"a.b\"]";
    assert PrefixSegments(p) == [] + [StepSegment(p)];
    assert "m[\"a.b\"]" == "m[\"a" + ("." + "b\"]");
    assert "b\"].t.n" == "b\"]" + ("." + "t.n");
    assert "b\"].t.n"[0] == 'b';
    DottedSegmentIsCut("t.n", p, "m[\"a", "b\"]");
  }

  lemma {:induction false} EscapedPlain(s: string)
    requires '"' !in s && '\\' !in s
    ensures EscapeKey(s) == s
    decreases |s|
  {
    if s != [] {
      assert s[0] in s && forall c :: c in s[1..] ==> c in s;
      EscapedPlain(s[1..]);
      assert s == [s[0]] + s[1..];
    }
  }

  /** In particular a plain resource address is recovered whole. */
  lemma PlainRoundTrip(address: string, p: Prefix)
    requires !StartsWith(address, MODULE) && forall seg :: seg in PrefixSegments(p) ==> '.' !in seg
    ensures SplitModules(Prefixed(address, p)) == (PrefixSegments(p), address)
  {
    SplitPrefixed(address, p);
    assert PrefixSegments(p) + [] == PrefixSegments(p);
  }

  // ---- balance --------------------------------------------------------------------------------

  lemma {:induction false} RunConcat(st: Scan, a: string, b: string)
    ensures Run(st, a + b) == match Run(st, a) case Some(mid) => Run(mid, b) case None => None
    decreases |a|
  {
    if a == [] {
      assert a + b == b;
    } else {
      assert (a + b)[0] == a[0] && (a + b)[1..] == a[1..] + b;
      if Advance(st, a[0]).Some? { RunConcat(Advance(st, a[0]).value, a[1..], b); }
    }
  }

  function Quotes(s: string): nat {
    multiset(s)['"']
  }

  /** The positions of `c` outside quotes: an even number of quotation marks comes before. */
  function Outside(s: string, c: char): set<nat> {
    set i: nat | i < |s| && s[i] == c && Quotes(s[..i]) % 2 == 0
  }

  /** Outside quotes, no more brackets close than have opened. */
  predicate ClosesOpened(s: string) {
    |Outside(s, ']')| <= |Outside(s, '[')|
  }

  ghost predicate PrefixesClose(s: string) {
    ClosesOpened(s) && forall i :: 0 <= i < |s| ==> ClosesOpened(s[..i])
  }

  lemma OutsideSnoc(s: string, d: char, c: char)
    ensures |Outside(s + [d], c)| == |Outside(s, c)| + (if d == c && Quotes(s) % 2 == 0 then 1 else 0)
  {
    var t := s + [d];
    var more: set<nat> := if d == c && Quotes(s) % 2 == 0 then {|s|} else {};
    forall i: nat ensures i in Outside(t, c) <==> i in Outside(s, c) + more {
      if i <= |s| { assert t[..i] == s[..i]; }
      assert s[..|s|] == s;
    }
    assert Outside(t, c) == Outside(s, c) + more;
    assert |s| !in Outside(s, c);
    hide Quotes, Outside;
  }

  lemma PrefixesSnoc(s: string, d: char)
    ensures PrefixesClose(s + [d]) <==> PrefixesClose(s) && ClosesOpened(s + [d])
  {
    hide ClosesOpened;
    var t := s + [d];
    forall i | 0 <= i <= |s| ensures t[..i] == s[..i] {}
    assert s[..|s|] == s;
    if PrefixesClose(t) {
      forall i | 0 <= i <= |s| ensures ClosesOpened(s[..i]) { assert ClosesOpened(t[..i]); }
    }
  }

  lemma RunOne(st: Scan, c: char)
    ensures Run(st, [c]) == Advance(st, c)
  {
  }

  /** What the scanner computes: it stops as soon as a prefix closes too much. */
  lemma {:induction false} RunCounts(s: string)
    ensures Run(Scan(0, false), s) ==
            if PrefixesClose(s) then Some(Scan(|Outside(s, '[')| - |Outside(s, ']')|, Quotes(s) % 2 == 1)) else None
    decreases |s|
  {
    hide Outside, Run;
    if s == [] {
      RunNothing();
    } else {
      var front, d := s[..|s| - 1], s[|s| - 1];
      assert s == front + [d];
      RunCounts(front);
      RunConcat(Scan(0, false), front, [d]);
      PrefixesSnoc(front, d);
      OutsideSnoc(front, d, '[');
      OutsideSnoc(front, d, ']');
      if PrefixesClose(front) {
        RunOne(Scan(|Outside(front, '[')| - |Outside(front, ']')|, Quotes(front) % 2 == 1), d);
      }
    }
  }

  lemma RunNothing()
    ensures Run(Scan(0, false), "") == Some(Scan(0, false)) && PrefixesClose("")
    ensures Outside("", '[') == {} == Outside("", ']') && Quotes("") == 0
  {
    assert Outside("", ']') == {};
  }

  /** Balance, said without a scanner: quotation marks come in pairs, and outside quotes as many
      brackets close as open and no prefix closes more than it opened. */
  lemma BalancedMeans(s: string)
    ensures Balanced(s) <==>
              Quotes(s) % 2 == 0 && |Outside(s, '[')| == |Outside(s, ']')| && PrefixesClose(s)
  {
    hide Outside, Run;
    RunCounts(s);
  }

  /** Text without quotes and brackets leaves the scanner where it was; inside quotes brackets are
      free too. */
  lemma {:induction false} RunNeutral(st: Scan, s: string)
    requires '"' !in s && (st.inQuotes || ('[' !in s && ']' !in s))
    ensures Run(st, s) == Some(st)
    decreases |s|
  {
    if s != [] {
      assert s[0] in s;
      assert forall c :: c in s[1..] ==> c in s;
      RunNeutral(st, s[1..]);
    }
  }

  lemma BalancedConcat(a: string, b: string)
    requires Balanced(a) && Balanced(b)
    ensures Balanced(a + b)
  {
    RunConcat(Scan(0, false), a, b);
  }

  /** Removing the `module.` in front keeps an address balanced. */
  lemma BalancedName(address: string)
    requires Balanced(address)
    ensures Balanced(StripPrefix(address, MODULE))
  {
    if StartsWith(address, MODULE) {
      var name := address[|MODULE|..];
      assert address == MODULE + name;
      RunConcat(Scan(0, false), MODULE, name);
      RunNeutral(Scan(0, false), MODULE);
    }
  }

  /** Every step's name and index are balanced. */
  predicate BalancedPrefix(p: Prefix) {
    p.Step? ==> Balanced(p.name) && (p.index.Some? ==> Balanced(p.index.value)) && BalancedPrefix(p.parent)
  }

  lemma {:induction false} RenderBalanced(p: Prefix)
    requires BalancedPrefix(p)
    ensures Balanced(Render(p))
    decreases p
  {
    if p.Step? {
      RenderBalanced(p.parent);
      var front := Render(p.parent);
      BalancedDot();
      BalancedConcat(front, ".");
      var dotted := if front == "" then "" else front + ".";
      RunNeutral(Scan(0, false), MODULE);
      BalancedConcat(dotted, MODULE);
      if p.index.Some? {
        BalancedConcat(p.name, p.index.value);
      } else {
        assert p.name + "" == p.name;
      }
      BalancedConcat(dotted + MODULE, StepSegment(p));
    }
  }

  lemma BalancedDot()
    ensures Balanced(".")
  {
    RunNeutral(Scan(0, false), ".");
  }

  /** Prefixing never breaks balance: it can fail only on length or charset. */
  lemma PrefixFailsOnLengthOrCharset(address: string, p: Prefix)
    requires ValidAddress(address) && BalancedPrefix(p)
    ensures PrefixAddress(address, p).None? <==>
              && p.Step?
              && (|Prefixed(address, p)| > ADDRESS_MAX_BYTES
                  || exists i :: 0 <= i < |Prefixed(address, p)| && !IsAddressChar(Prefixed(address, p)[i]))
  {
    if p.Step? {
      RenderBalanced(p);
      BalancedDot();
      BalancedConcat(Render(p), ".");
      BalancedConcat(Render(p) + ".", address);
    }
  }

  // ---- the allowlist --------------------------------------------------------------------------

  predicate Allowed(s: string) {
    forall i :: 0 <= i < |s| ==> IsAddressChar(s[i])
  }

  predicate AllowedNames(p: Prefix) {
    p.Step? ==> Allowed(p.name) && AllowedNames(p.parent)
  }

  predicate AllowedIndices(p: Prefix) {
    p.Step? ==> (p.index.Some? ==> Allowed(p.index.value)) && AllowedIndices(p.parent)
  }

  lemma AllowedConcat(a: string, b: string)
    ensures Allowed(a + b) <==> Allowed(a) && Allowed(b)
  {
    var s := a + b;
    hide IsAddressChar;
    assert forall i :: 0 <= i < |a| ==> s[i] == a[i];
    assert forall i :: 0 <= i < |b| ==> s[|a| + i] == b[i];
    if Allowed(s) {
      forall i | 0 <= i < |b| ensures IsAddressChar(b[i]) { assert IsAddressChar(s[|a| + i]); }
      forall i | 0 <= i < |a| ensures IsAddressChar(a[i]) { assert IsAddressChar(s[i]); }
    }
  }

  lemma SegmentAllowed(p: Prefix)
    requires p.Step? && Allowed(p.name)
    ensures Allowed(MODULE + StepSegment(p)) <==> (p.index.Some? ==> Allowed(p.index.value))
  {
    hide IsAddressChar;
    assert Allowed(MODULE) by { ModuleAllowed(); }
    AllowedConcat(MODULE, StepSegment(p));
    AllowedConcat(p.name, if p.index.Some? then p.index.value else "");
  }

  lemma ModuleAllowed()
    ensures Allowed(MODULE) && Allowed(".") && Allowed("")
  {
  }

  lemma {:induction false} RenderAllowed(p: Prefix)
    requires AllowedNames(p)
    ensures Allowed(Render(p)) <==> AllowedIndices(p)
    decreases p
  {
    hide Allowed;
    ModuleAllowed();
    if p.Step? {
      RenderAllowed(p.parent);
      SegmentAllowed(p);
      var front := Render(p.parent);
      var dotted := if front == "" then "" else front + ".";
      AllowedConcat(front, ".");
      assert Render(p) == dotted + (MODULE + StepSegment(p));
      AllowedConcat(dotted, MODULE + StepSegment(p));
    }
  }

  /** When names are within the allowlist, only length and the indices can make prefixing fail. */
  lemma PrefixFails(address: string, p: Prefix)
    requires ValidAddress(address) && BalancedPrefix(p) && AllowedNames(p)
    ensures PrefixAddress(address, p).None? <==>
              p.Step? && (|Prefixed(address, p)| > ADDRESS_MAX_BYTES || !AllowedIndices(p))
  {
    PrefixFailsOnLengthOrCharset(address, p);
    ModuleAllowed();
    RenderAllowed(p);
    AllowedConcat(Render(p), ".");
    AllowedConcat(Render(p) + ".", address);
    hide IsAddressChar, Balanced, Render;
    assert Allowed(address);
  }

  // ---- indices --------------------------------------------------------------------------------

  function CountIndex(i: nat): string {
    "[" + DecNat(i) + "]"
  }

  function EscapeKey(s: string): (r: string)
    ensures forall c :: c in r <==> c in s && c != '"' && c != '\\'
  {
    if s == [] then []
    else if s[0] == '"' || s[0] == '\\' then EscapeKey(s[1..])
    else [s[0]] + EscapeKey(s[1..])
  }

  function KeyIndex(key: string): string {
    "[\"" + EscapeKey(key) + "\"]"
  }

  lemma IndicesBalanced(i: nat, key: string)
    ensures Balanced(CountIndex(i)) && Balanced(KeyIndex(key))
  {
    var out, inside, quoted := Scan(0, false), Scan(1, false), Scan(1, true);
    RunConcat(out, "[" + DecNat(i), "]");
    RunConcat(out, "[", DecNat(i));
    RunNeutral(inside, DecNat(i));
    RunConcat(out, "[\"" + EscapeKey(key), "\"]");
    RunConcat(out, "[\"", EscapeKey(key));
    RunConcat(out, "[", "\"");
    RunNeutral(quoted, EscapeKey(key));
    RunConcat(quoted, "\"", "]");
  }

  /** Count indices always pass the allowlist; a key passes when its characters do, quotation marks and
      backslashes aside, which are dropped. */
  lemma IndicesAllowed(i: nat, key: string)
    ensures Allowed(CountIndex(i))
    ensures Allowed(KeyIndex(key)) <==> forall c :: c in key && c != '"' && c != '\\' ==> IsAddressChar(c)
  {
    var e := EscapeKey(key);
    assert Allowed("[") && Allowed("]") && Allowed("[\"") && Allowed("\"]") && Allowed(DecNat(i));
    hide IsAddressChar;
    AllowedConcat("[" + DecNat(i), "]");
    AllowedConcat("[", DecNat(i));
    AllowedConcat("[\"" + e, "\"]");
    AllowedConcat("[\"", e);
    AllowedMembers(e);
  }

  lemma AllowedMembers(s: string)
    ensures Allowed(s) <==> forall c :: c in s ==> IsAddressChar(c)
  {
    hide IsAddressChar;
    if forall c :: c in s ==> IsAddressChar(c) {
      forall i | 0 <= i < |s| ensures IsAddressChar(s[i]) { assert s[i] in s; }
    }
  }

  /** ASCII letters and digits, and `"`, `-`, `.`, `/`, `[`, `]`, `_`. */
  predicate AddressCode(n: int) {
    65 <= n <= 90 || 97 <= n <= 122 || 48 <= n <= 57 || n in {34, 45, 46, 47, 91, 93, 95}
  }

  /** A valid address has 1 to 1024 characters of the allowlist, quotation marks in pairs, and outside quotes
      brackets that match. */
  lemma ValidAddressMeans(s: string)
    ensures ValidAddress(s) <==>
              && 1 <= |s| <= 1024 && (forall c :: c in s ==> AddressCode(c as int))
              && Quotes(s) % 2 == 0 && |Outside(s, '[')| == |Outside(s, ']')| && PrefixesClose(s)
  {
    BalancedMeans(s);
    hide Balanced, Quotes, Outside, PrefixesClose;
    assert forall c :: IsAddressChar(c) <==> AddressCode(c as int);
    hide IsAddressChar, AddressCode;
    if forall c :: c in s ==> AddressCode(c as int) {
      forall i | 0 <= i < |s| ensures IsAddressChar(s[i]) { assert s[i] in s; }
    }
  }
}
