/** Topic filters and topic names.  The byte loop of the client against the relation between their levels. */
module TopicMatch {

  // ----- levels -----

  /** The length of the first level of s. */
  function LevelLen(s: string): (k: nat)
    ensures k <= |s| && '/' !in s[..k] && (k < |s| ==> s[k] == '/')
  {
    if s == "" || s[0] == '/' then 0 else 1 + LevelLen(s[1..])
  }

  /** The levels of s, which separators part. */
  function Split(s: string): (levels: seq<string>)
    ensures |levels| > 0 && levels[0] == s[..LevelLen(s)]
    decreases |s|
  {
    var k := LevelLen(s);
    if k == |s| then [s] else [s[..k]] + Split(s[k + 1..])
  }

  predicate Plain(level: string) { '/' !in level && '+' !in level && '#' !in level }

  /** A wildcard takes up a whole level, and # is the last level. */
  predicate WellFormed(filter: seq<string>) {
    forall i :: 0 <= i < |filter| ==> filter[i] == "+" || (filter[i] == "#" && i == |filter| - 1) || Plain(filter[i])
  }

  predicate NoEmptyLevel(name: seq<string>) { forall i :: 0 <= i < |name| ==> name[i] != "" }

  /** + stands for one level, # for one or more at the end. */
  predicate Matches(filter: seq<string>, name: seq<string>) {
    if filter == [] then name == []
    else if filter[0] == "#" then name != []
    else name != [] && (filter[0] == "+" || filter[0] == name[0]) && Matches(filter[1..], name[1..])
  }

  /** The relation of section 4.7.1 of MQTT 3.1.1: # also stands for no level, and so for its parent. */
  predicate StandardMatches(filter: seq<string>, name: seq<string>) {
    if filter == [] then name == []
    else if filter[0] == "#" then true
    else name != [] && (filter[0] == "+" || filter[0] == name[0]) && StandardMatches(filter[1..], name[1..])
  }

  predicate Wildcard(level: string) { level == "+" || level == "#" }

  /** What the client matches: a wildcard has to stand for a level that is not empty. */
  predicate ClientMatches(filter: seq<string>, name: seq<string>) {
    if filter == [] || name == [] then filter == [] && name == []
    else if filter[0] == "#" then name[0] != ""
    else (if filter[0] == "+" then name[0] != "" else filter[0] == name[0]) && ClientMatches(filter[1..], name[1..])
  }

  /** Each wildcard of the filter has a level of the name at its place, which is not empty. */
  predicate Covered(filter: seq<string>, name: seq<string>) {
    forall i :: 0 <= i < |filter| && Wildcard(filter[i]) ==> i < |name| && name[i] != ""
  }

  // ----- the loop -----

  /** What the loop decides from the rest of the filter and the rest of the name. */
  predicate Scan(f: string, n: string)
    decreases |f|
  {
    if f == "" || n == "" then f == "" && n == ""
    else if n[0] == '/' && f[0] != '/' then false
    else if f[0] == '+' then Scan(f[1..], n[if n[0] == '/' then 1 else LevelLen(n)..])
    else if f[0] == '#' then Scan(f[1..], "")
    else f[0] == n[0] && Scan(f[1..], n[1..])
  }

  /** From inside a level to its last byte. */
  method SkipLevel(name: string, start: nat) returns (curn: nat)
    requires start < |name| && name[start] != '/'
    ensures start <= curn < |name| && curn + 1 == start + LevelLen(name[start..])
  {
    curn := start;
    var nextpos := curn + 1;
    while nextpos < |name| && name[nextpos] != '/'
      invariant start <= curn < |name| && nextpos == curn + 1
      invariant '/' !in name[start..curn + 1]
    {
      curn := curn + 1;
      nextpos := curn + 1;
    }
    LevelEnds(name[start..], curn + 1 - start);
  }

  lemma {:induction false} LevelEnds(s: string, k: nat)
    requires k <= |s| && '/' !in s[..k] && (k < |s| ==> s[k] == '/')
    ensures LevelLen(s) == k
  {
    if k > 0 {
      assert s[0] in s[..k];
      assert s[1..][..k - 1] == s[1..k];
      forall c | c in s[1..k]
        ensures c in s[..k]
      {
        var i :| 0 <= i < |s[1..k]| && s[1..k][i] == c;
        assert s[..k][i + 1] == c;
      }
      LevelEnds(s[1..], k - 1);
    }
  }

  // ----- the loop decides the relation between the levels -----

  /** What follows a level: nothing, or a separator. */
  predicate AfterLevel(s: string) { s == "" || s[0] == '/' }

  lemma {:induction false} ScanLevel(l: string, fr: string, m: string, nr: string)
    requires Plain(l) && '/' !in m && AfterLevel(fr) && AfterLevel(nr)
    ensures Scan(l + fr, m + nr) <==> l == m && Scan(fr, nr)
    decreases |l|
  {
    if l == "" {
      assert l + fr == fr && (m == "" ==> m + nr == nr);
    } else if m == "" {
      assert m + nr == nr && l[0] in l;
    } else {
      assert l[0] in l && m[0] in m;
      assert (l + fr)[1..] == l[1..] + fr && (m + nr)[1..] == m[1..] + nr;
      ScanLevel(l[1..], fr, m[1..], nr);
    }
  }

  /** A separator in both: the levels behind it are left. */
  lemma ScanSeparators(f: string, n: string)
    requires f != "" && n != "" && f[0] == n[0] == '/'
    ensures Scan(f, n) == Scan(f[1..], n[1..])
  {
  }

  lemma SplitTail(s: string)
    ensures var k := LevelLen(s); if k == |s| then Split(s)[1..] == [] else Split(s)[1..] == Split(s[k + 1..])
  {
  }

  /** A + goes over the rest of a level. */
  lemma ScanPlus(f: string, n: string)
    requires f != "" && f[0] == '+' && LevelLen(n) > 0
    ensures Scan(f, n) == Scan(f[1..], n[LevelLen(n)..])
  {
    assert n[0] != '/';
  }

  lemma ScanHash(n: string)
    requires LevelLen(n) > 0
    ensures Scan("#", n)
  {
    assert n[0] != '/';
    assert "#"[1..] == "";
  }

  lemma FirstPlain(f: string)
    requires WellFormed(Split(f)) && f[..LevelLen(f)] != "+" && f[..LevelLen(f)] != "#"
    ensures Plain(f[..LevelLen(f)])
  {
    assert Split(f)[0] == f[..LevelLen(f)];
  }

  lemma FirstHash(f: string)
    requires WellFormed(Split(f)) && f[..LevelLen(f)] == "#"
    ensures f == "#" && Split(f) == ["#"]
  {
    assert Split(f)[0] == "#" && !Plain("#") by { assert "#"[0] == '#'; }
    SplitTail(f);
    assert |Split(f)| == 1;
  }

  lemma ScanPlain(f: string, n: string)
    requires Plain(f[..LevelLen(f)])
    ensures var k, m := LevelLen(f), LevelLen(n); Scan(f, n) <==> f[..k] == n[..m] && Scan(f[k..], n[m..])
  {
    var k, m := LevelLen(f), LevelLen(n);
    assert f == f[..k] + f[k..] && n == n[..m] + n[m..];
    ScanLevel(f[..k], f[k..], n[..m], n[m..]);
  }

  /** No wildcard goes with an empty level. */
  lemma ScanEmpty(f: string, n: string)
    requires f != "" && (f[0] == '+' || f[0] == '#') && LevelLen(n) == 0
    ensures !Scan(f, n)
  {
    assert n != "" ==> n[0] == '/';
  }

  /** One level of the filter against one level of the name. */
  lemma ScanFirst(f: string, n: string)
    requires WellFormed(Split(f))
    ensures var k, m := LevelLen(f), LevelLen(n);
            Scan(f, n) <==>
              if f[..k] == "#" then m > 0
              else (if f[..k] == "+" then m > 0 else f[..k] == n[..m]) && Scan(f[k..], n[m..])
  {
    var k, m := LevelLen(f), LevelLen(n);
    if Wildcard(f[..k]) { assert f[0] == f[..k][0]; }
    if Wildcard(f[..k]) && m == 0 {
      ScanEmpty(f, n);
    } else if f[..k] == "+" {
      ScanPlus(f, n);
    } else if f[..k] == "#" {
      FirstHash(f);
      ScanHash(n);
    } else {
      FirstPlain(f);
      ScanPlain(f, n);
    }
  }

  lemma WellFormedTail(filter: seq<string>)
    requires WellFormed(filter) && filter != []
    ensures WellFormed(filter[1..])
  {
    forall i | 0 <= i < |filter| - 1
      ensures filter[1..][i] == "+" || (filter[1..][i] == "#" && i == |filter| - 2) || Plain(filter[1..][i])
    {
      assert filter[1..][i] == filter[i + 1];
    }
  }

  /** For a well-formed filter and any name the loop matches if and only if the levels do. */
  lemma {:induction false} ScanIsMatch(f: string, n: string)
    requires WellFormed(Split(f))
    ensures Scan(f, n) <==> ClientMatches(Split(f), Split(n))
    decreases |f|
  {
    var k, m := LevelLen(f), LevelLen(n);
    ScanFirst(f, n);
    SplitTail(f);
    SplitTail(n);
    assert |n[..m]| == m;
    if f[..k] == "#" {
      assert |Split(f)| == 1;
    } else if k < |f| && m < |n| {
      ScanSeparators(f[k..], n[m..]);
      assert f[k..][1..] == f[k + 1..] && n[m..][1..] == n[m + 1..];
      WellFormedTail(Split(f));
      ScanIsMatch(f[k + 1..], n[m + 1..]);
    }
  }

  /** The client matches exactly what the standard matches with every wildcard over a level that is not empty.  So
      each of its matches is one of the standard; what it misses are the parent level of a # and empty levels. */
  lemma {:induction false} ClientIff(filter: seq<string>, name: seq<string>)
    requires WellFormed(filter)
    ensures ClientMatches(filter, name) <==> StandardMatches(filter, name) && Covered(filter, name)
  {
    if filter != [] && name != [] {
      if filter[0] == "#" {
        assert |filter| == 1;
      } else {
        WellFormedTail(filter);
        ClientIff(filter[1..], name[1..]);
        CoveredTail(filter, name);
      }
    } else if filter != [] {
      assert Wildcard(filter[0]) ==> !Covered(filter, name);
    }
  }

  lemma CoveredTail(filter: seq<string>, name: seq<string>)
    requires filter != [] && name != []
    ensures Covered(filter, name) <==> (Wildcard(filter[0]) ==> name[0] != "") && Covered(filter[1..], name[1..])
  {
    var f, n := filter[1..], name[1..];
    if Covered(filter, name) {
      forall i | 0 <= i < |f| && Wildcard(f[i])
        ensures i < |n| && n[i] != ""
      {
        assert Wildcard(filter[i + 1]);
      }
    }
    if (Wildcard(filter[0]) ==> name[0] != "") && Covered(f, n) {
      forall i | 0 <= i < |filter| && Wildcard(filter[i])
        ensures i < |name| && name[i] != ""
      {
        if i > 0 { assert Wildcard(f[i - 1]); }
      }
    }
  }

  /** Of names without empty levels it misses the parent level only. */
  lemma {:induction false} ClientWithoutEmpty(filter: seq<string>, name: seq<string>)
    requires NoEmptyLevel(name)
    ensures ClientMatches(filter, name) <==> Matches(filter, name)
  {
    if filter != [] && name != [] {
      assert NoEmptyLevel(name[1..]) by { assert forall i :: 0 <= i < |name| - 1 ==> name[1..][i] == name[i + 1]; }
      ClientWithoutEmpty(filter[1..], name[1..]);
    }
  }

  lemma SplitOne(a: string)
    requires '/' !in a
    ensures Split(a) == [a]
  {
    assert a[..|a|] == a;
    LevelEnds(a, |a|);
  }

  lemma SplitTwo(a: string, b: string)
    requires '/' !in a && '/' !in b
    ensures Split(a + "/" + b) == [a, b]
  {
    var s := a + "/" + b;
    assert s[..|a|] == a && s[|a| + 1..] == b;
    LevelEnds(s, |a|);
    SplitOne(b);
  }

  /** "a/#" is to match "a", the parent level of its #; the client does not. */
  lemma MissesParent()
    ensures StandardMatches(Split("a/#"), Split("a")) && !Scan("a/#", "a")
  {
    assert "a/#" == "a" + "/" + "#";
    SplitTwo("a", "#");
    SplitOne("a");
    StandardTwo("a", "#", ["a"]);
    ScanIsMatch("a/#", "a");
    ClientIff(["a", "#"], ["a"]);
    assert Wildcard(["a", "#"][1]);
  }

  /** "+/+" is to match "/finance", whose first level is empty; the client does not. */
  lemma MissesEmpty()
    ensures StandardMatches(Split("+/+"), Split("/finance")) && !Scan("+/+", "/finance")
  {
    assert "+/+" == "+" + "/" + "+" && "/finance" == "" + "/" + "finance";
    SplitTwo("+", "+");
    SplitTwo("", "finance");
    StandardTwo("+", "+", ["", "finance"]);
    ScanIsMatch("+/+", "/finance");
    ClientIff(["+", "+"], ["", "finance"]);
    assert Wildcard(["+", "+"][0]);
  }

  lemma StandardTwo(a: string, b: string, name: seq<string>)
    requires a != "#" && name != []
    ensures StandardMatches([a, b], name) <==> (a == "+" || a == name[0]) && StandardMatches([b], name[1..])
    ensures b == "#" || (b == "+" && |name| == 2) ==> StandardMatches([b], name[1..])
  {
    assert [a, b][1..] == [b] && [b][1..] == [];
  }

  /** The standard also matches a filter that ends in # with the parent level of the #, and nothing else. */
  lemma {:induction false} StandardIff(filter: seq<string>, name: seq<string>)
    requires WellFormed(filter)
    ensures StandardMatches(filter, name) <==>
            || Matches(filter, name)
            || (filter != [] && filter[|filter| - 1] == "#" && Matches(filter[..|filter| - 1], name))
  {
    if filter != [] && filter[0] != "#" && name != [] {
      WellFormedTail(filter);
      StandardIff(filter[1..], name[1..]);
      if |filter| > 1 {
        assert filter[1..][..|filter| - 2] == filter[..|filter| - 1][1..];
        assert filter[1..][|filter| - 2] == filter[|filter| - 1];
      }
    } else if filter != [] && filter[0] == "#" {
      assert |filter| == 1 && filter[..0] == [];
    } else if |filter| > 0 {
      assert filter[..|filter| - 1] != [] ==> filter[..|filter| - 1][0] == filter[0];
    }
  }

  // ----- the client -----

  /** The byte loop of the client; it ends at the first pair of bytes that do not go together. */
  method IsTopicMatched(filter: string, name: string) returns (matched: bool)
    ensures matched <==> Scan(filter, name)
    ensures WellFormed(Split(filter)) ==> (matched <==> ClientMatches(Split(filter), Split(name)))
    ensures WellFormed(Split(filter)) && NoEmptyLevel(Split(name)) ==>
            (matched <==> Matches(Split(filter), Split(name)))
  {
    var curf, curn := 0, 0;
    while curf < |filter| && curn < |name|
      invariant 0 <= curf <= |filter| && 0 <= curn <= |name|
      invariant Scan(filter[curf..], name[curn..]) <==> Scan(filter, name)
      decreases |filter| - curf
    {
      if name[curn] == '/' && filter[curf] != '/' {
        break;
      }
      if filter[curf] != '+' && filter[curf] != '#' && filter[curf] != name[curn] {
        break;
      }
      ghost var f, n := filter[curf..], name[curn..];
      if filter[curf] == '+' {
        curn := SkipLevel(name, curn);
      } else if filter[curf] == '#' {
        curn := |name| - 1;
      }
      curf := curf + 1;
      curn := curn + 1;
      assert filter[curf..] == f[1..];
    }
    if WellFormed(Split(filter)) {
      ScanIsMatch(filter, name);
      if NoEmptyLevel(Split(name)) { ClientWithoutEmpty(Split(filter), Split(name)); }
    }
    return curn == |name| && curf == |filter|;
  }

  /** A place in the client's table of handlers: filter is None while it is unused. */
  datatype Filter = None | Some(text: string)
  datatype Handler = Handler(filter: Filter, callable: bool)

  predicate Serves(h: Handler, name: string) {
    h.filter.Some? && h.callable && (name == h.filter.text || Scan(h.filter.text, name))
  }

  /** The first n places of the table that are to be called. */
  function Served(table: seq<Handler>, name: string, n: nat): (r: seq<int>)
    requires n <= |table|
    ensures forall i :: i in r <==> 0 <= i < n && Serves(table[i], name)
    ensures forall i, j :: 0 <= i < j < |r| ==> r[i] < r[j]
  {
    if n == 0 then []
    else
      var q := Served(table, name, n - 1);
      assert forall i :: 0 <= i < |q| ==> q[i] in q;
      q + if Serves(table[n - 1], name) then [n - 1] else []
  }

  method HandlerServes(h: Handler, name: string) returns (serves: bool)
    ensures serves <==> Serves(h, name)
  {
    if h.filter.None? {
      return false;
    }
    serves := h.filter.text == name;
    if !serves {
      serves := IsTopicMatched(h.filter.text, name);
    }
    serves := serves && h.callable;
  }

  /** A message is handed to every handler whose filter is equal to its topic or matches it, in the order of the
      table, and to the default handler if there is none. */
  method DeliverMessage(table: seq<Handler>, hasDefault: bool, name: string)
    returns (called: seq<int>, toDefault: bool, ok: bool)
    ensures called == Served(table, name, |table|)
    ensures forall i :: i in called <==> 0 <= i < |table| && Serves(table[i], name)
    ensures forall i, j :: 0 <= i < j < |called| ==> called[i] < called[j]
    ensures toDefault <==> hasDefault && forall i :: 0 <= i < |table| ==> !Serves(table[i], name)
    ensures ok <==> called != [] || toDefault
  {
    called, toDefault, ok := [], false, false;
    for i := 0 to |table|
      invariant called == Served(table, name, i) && (ok <==> called != [])
    {
      var serves := HandlerServes(table[i], name);
      if serves {
        called := called + [i];
        ok := true;
      }
    }
    NoneServed(table, name);
    if !ok && hasDefault {
      toDefault, ok := true, true;
    }
  }

  lemma NoneServed(table: seq<Handler>, name: string)
    ensures Served(table, name, |table|) == [] <==> forall i :: 0 <= i < |table| ==> !Serves(table[i], name)
  {
    var r := Served(table, name, |table|);
    if r != [] {
      assert r[0] in r && Serves(table[r[0]], name);
    } else {
      assert forall i :: 0 <= i < |table| && Serves(table[i], name) ==> i in r;
    }
  }
}
