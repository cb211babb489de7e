/**
 * The output names of the batch mode of convert_to_ios.py (`process_directory`, lines 381-397):
 * each input keeps its base name, `.jpg`/`.jpeg` inputs get `.png` instead, and a name met again
 * gets a counter from the `used_filenames` dictionary: `stem_k.ext` for its k-th repeat.
 */
module OutputNames {

  // ---------------------------------------------------------------- path helpers

  /** The position of the last `ch` in `s`, or -1 (`str.rfind`). */
  function LastIndex(s: string, ch: char): (r: int)
    ensures -1 <= r < |s|
    ensures r >= 0 ==> s[r] == ch
    ensures forall j :: r < j < |s| ==> s[j] != ch
    decreases |s|
  {
    if s == [] then -1 else if s[|s| - 1] == ch then |s| - 1 else LastIndex(s[..|s| - 1], ch)
  }

  /** The last `ch` is at `r` when `s[r]` is `ch` and no later character is. */
  lemma LastIndexIs(s: string, ch: char, r: int)
    requires -1 <= r < |s| && (r >= 0 ==> s[r] == ch)
    requires forall j :: r < j < |s| ==> s[j] != ch
    ensures LastIndex(s, ch) == r
  {
  }

  /** `os.path.basename` on a POSIX path: what follows the last slash. */
  function BaseName(path: string): (r: string)
    ensures |r| <= |path| && r == path[|path| - |r|..]
    ensures forall j :: 0 <= j < |r| ==> r[j] != '/'
  {
    path[LastIndex(path, '/') + 1..]
  }

  predicate AllDots(s: string) {
    forall j :: 0 <= j < |s| ==> s[j] == '.'
  }

  /** `os.path.splitext` on a POSIX path: cut before the last dot of the last path component,
      unless only dots precede that dot in the component (so `.bashrc` has no extension). */
  function SplitExt(p: string): (r: (string, string))
    ensures r.0 + r.1 == p
  {
    var sep, dot := LastIndex(p, '/'), LastIndex(p, '.');
    if dot > sep && !AllDots(p[sep + 1..dot]) then
      (p[..dot], p[dot..])
    else
      (p, [])
  }

  /** The extension is empty, or a dot followed by neither dots nor slashes. */
  lemma ExtensionShape(p: string)
    ensures var e := SplitExt(p).1;
      e == [] || (e[0] == '.' && forall j :: 1 <= j < |e| ==> e[j] != '.' && e[j] != '/')
  {
    var sep, dot := LastIndex(p, '/'), LastIndex(p, '.');
    if dot > sep && !AllDots(p[sep + 1..dot]) {
      ExtensionTail(p, sep, dot);
    }
  }

  /** When `os.path.splitext` finds no extension, and what the stem it cuts off looks like:
      there is no extension exactly when every dot in the last path component has only dots
      before it in that component; otherwise the last component of the stem is not all dots. */
  lemma SplitExtCases(p: string)
    ensures var sep, r := LastIndex(p, '/'), SplitExt(p);
      (r.1 == [] <==> forall j :: sep < j < |p| && p[j] == '.' ==> AllDots(p[sep + 1..j]))
      && (r.1 != [] ==> sep < |r.0| && !AllDots(r.0[sep + 1..]))
  {
    var sep, dot := LastIndex(p, '/'), LastIndex(p, '.');
    if dot > sep && !AllDots(p[sep + 1..dot]) {
      SplitExtFound(p, sep, dot);
    } else {
      SplitExtNone(p, sep, dot);
    }
  }

  lemma SplitExtFound(p: string, sep: int, dot: int)
    requires sep == LastIndex(p, '/') && dot == LastIndex(p, '.')
    requires dot > sep && !AllDots(p[sep + 1..dot])
    ensures var r := SplitExt(p);
      r == (p[..dot], p[dot..]) && r.1 != [] && sep < |r.0| && !AllDots(r.0[sep + 1..])
    ensures !forall j :: sep < j < |p| && p[j] == '.' ==> AllDots(p[sep + 1..j])
  {
    assert p[..dot][sep + 1..] == p[sep + 1..dot];
  }

  lemma SplitExtNone(p: string, sep: int, dot: int)
    requires sep == LastIndex(p, '/') && dot == LastIndex(p, '.')
    requires !(dot > sep && !AllDots(p[sep + 1..dot]))
    ensures SplitExt(p).1 == []
    ensures forall j :: sep < j < |p| && p[j] == '.' ==> AllDots(p[sep + 1..j])
  {
    forall j | sep < j < |p| && p[j] == '.'
      ensures AllDots(p[sep + 1..j])
    {
      DotsBefore(p, sep, j, dot);
    }
  }

  /** A prefix of a run of dots is a run of dots. */
  lemma DotsBefore(p: string, sep: int, j: int, dot: int)
    requires -1 <= sep < j <= dot < |p| && AllDots(p[sep + 1..dot])
    ensures AllDots(p[sep + 1..j])
  {
    var front, run := p[sep + 1..j], p[sep + 1..dot];
    forall k | 0 <= k < |front|
      ensures front[k] == '.'
    {
      assert front[k] == run[k];
    }
  }

  /** What follows the last dot holds no dot, nor a slash when the last slash comes earlier. */
  lemma ExtensionTail(p: string, sep: int, dot: nat)
    requires -1 <= sep < dot < |p|
    requires forall j :: dot < j < |p| ==> p[j] != '.'
    requires forall j :: sep < j < |p| ==> p[j] != '/'
    ensures p[..dot] + p[dot..] == p
    ensures forall j :: 1 <= j < |p[dot..]| ==> p[dot..][j] != '.' && p[dot..][j] != '/'
  {
    assert forall j :: 1 <= j < |p[dot..]| ==> p[dot..][j] == p[dot + j];
  }

  /** `str.lower` on ASCII letters: an upper-case letter becomes the same letter in lower
      case, and every other character is kept. */
  function LowerChar(c: char): (r: char)
    ensures !('A' <= r <= 'Z')
    ensures !('A' <= c <= 'Z') ==> r == c
    ensures 'A' <= c <= 'Z' ==> 'a' <= r <= 'z' && r as int - 'a' as int == c as int - 'A' as int
  {
    if 'A' <= c <= 'Z' then (c as int + 32) as char else c
  }

  /** `str.lower` on a string: no upper-case ASCII letter is left, each one turned into the
      same letter in lower case, and every other character is kept in place. */
  function Lower(s: string): (r: string)
    ensures |r| == |s|
    ensures forall j :: 0 <= j < |s| ==> !('A' <= r[j] <= 'Z')
    ensures forall j :: 0 <= j < |s| && !('A' <= s[j] <= 'Z') ==> r[j] == s[j]
    ensures forall j :: 0 <= j < |s| && 'A' <= s[j] <= 'Z' ==> r[j] as int - 'a' as int == s[j] as int - 'A' as int
  {
    seq(|s|, j requires 0 <= j < |s| => LowerChar(s[j]))
  }

  /** `e` spells the lower-case `word` with any of its letters in upper case. */
  predicate SpellsCaseless(e: string, word: string) {
    |e| == |word|
    && forall j :: 0 <= j < |e| ==>
      e[j] == word[j] || ('a' <= word[j] <= 'z' && e[j] as int == word[j] as int - 32)
  }

  /** Lowering gives a word without capitals exactly when the string spells that word in
      some mix of cases. */
  lemma LowerEquals(e: string, word: string)
    requires forall j :: 0 <= j < |word| ==> !('A' <= word[j] <= 'Z')
    ensures Lower(e) == word <==> SpellsCaseless(e, word)
  {
    if SpellsCaseless(e, word) {
      forall j | 0 <= j < |e|
        ensures Lower(e)[j] == word[j]
      {
      }
    }
  }

  /** `ext.lower() in ['.jpg', '.jpeg']`, in terms of the letters of `ext`. */
  predicate IsJpegExt(ext: string) {
    SpellsCaseless(ext, ".jpg") || SpellsCaseless(ext, ".jpeg")
  }

  /** `f"{n}"` for a natural number: its decimal digits. */
  function Digits(n: nat): (r: string)
    ensures |r| >= 1 && forall j :: 0 <= j < |r| ==> '0' <= r[j] <= '9'
    decreases n
  {
    var d := ('0' as int + n % 10) as char;
    if n < 10 then [d] else Digits(n / 10) + [d]
  }

  /** The number a string of decimal digits denotes, most significant digit first. */
  function DecimalValue(s: string): int
    decreases |s|
  {
    if s == [] then 0 else 10 * DecimalValue(s[..|s| - 1]) + (s[|s| - 1] as int - '0' as int)
  }

  /** The digits of `n` denote `n`, without a leading zero unless `n` is 0. */
  lemma {:induction false} DigitsValue(n: nat)
    ensures DecimalValue(Digits(n)) == n
    ensures n > 0 ==> Digits(n)[0] != '0'
    decreases n
  {
    var d := ('0' as int + n % 10) as char;
    if n >= 10 {
      var front := Digits(n / 10);
      DigitsValue(n / 10);
      var r := front + [d];
      assert r[..|r| - 1] == front;
      assert r[0] == front[0];
    }
  }

  function Pow10(m: nat): (r: nat)
    ensures r >= 1
  {
    if m == 0 then 1 else 10 * Pow10(m - 1)
  }

  // ---------------------------------------------------------------- the names

  /** The name before deduplication: a JPEG input becomes `stem.png`, any other keeps its name. */
  function OutputName(path: string): (r: string)
    ensures forall j :: 0 <= j < |r| ==> r[j] != '/'
  {
    var base := BaseName(path);
    var parts := SplitExt(base);
    var ext := Lower(parts.1);
    if ext == ".jpg" || ext == ".jpeg" then
      PngNameNoSlash(base, parts.0);
      parts.0 + ".png"
    else
      base
  }

  /** A stem cut from a name without slashes, with `.png` after it, has no slash. */
  lemma PngNameNoSlash(base: string, stem: string)
    requires |stem| <= |base| && stem == base[..|stem|]
    requires forall j :: 0 <= j < |base| ==> base[j] != '/'
    ensures forall j :: 0 <= j < |stem + ".png"| ==> (stem + ".png")[j] != '/'
  {
    var r := stem + ".png";
    forall j | 0 <= j < |r|
      ensures r[j] != '/'
    {
      if j < |stem| {
        assert r[j] == base[j];
      } else {
        assert r[j] == ".png"[j - |stem|];
      }
    }
  }

  /** The renaming: a `.jpg` or `.jpeg` extension, in any mix of cases, makes the name
      `stem.png`, which splits back into the same stem and `.png`; any other name is kept. */
  lemma OutputNameCases(path: string)
    ensures var base := BaseName(path); var parts := SplitExt(base);
      (IsJpegExt(parts.1) ==>
        OutputName(path) == parts.0 + ".png" && SplitExt(OutputName(path)) == (parts.0, ".png"))
      && (!IsJpegExt(parts.1) ==> OutputName(path) == base)
  {
    var base := BaseName(path);
    var parts := SplitExt(base);
    JpegWords(parts.1);
    OutputNameBranch(path, base, parts.0, parts.1);
    if IsJpegExt(parts.1) {
      PngSplit(base, parts.0, parts.1);
    }
  }

  /** The two branches of the rename, as the source tests them. */
  lemma OutputNameBranch(path: string, base: string, stem: string, ext: string)
    requires BaseName(path) == base && SplitExt(base) == (stem, ext)
    ensures Lower(ext) == ".jpg" || Lower(ext) == ".jpeg" ==> OutputName(path) == stem + ".png"
    ensures !(Lower(ext) == ".jpg" || Lower(ext) == ".jpeg") ==> OutputName(path) == base
  {
  }

  /** The source's test on the lowered extension is `IsJpegExt`. */
  lemma JpegWords(e: string)
    ensures Lower(e) == ".jpg" || Lower(e) == ".jpeg" <==> IsJpegExt(e)
  {
    NoCapitals();
    LowerEquals(e, ".jpg");
    LowerEquals(e, ".jpeg");
  }

  lemma NoCapitals()
    ensures forall j :: 0 <= j < |".jpg"| ==> !('A' <= ".jpg"[j] <= 'Z')
    ensures forall j :: 0 <= j < |".jpeg"| ==> !('A' <= ".jpeg"[j] <= 'Z')
  {
  }

  /** A stem cut off a name without slashes, followed by `.png`, splits into that stem and
      `.png`. */
  lemma PngSplit(base: string, stem: string, ext: string)
    requires forall j :: 0 <= j < |base| ==> base[j] != '/'
    requires SplitExt(base) == (stem, ext) && ext != []
    ensures SplitExt(stem + ".png") == (stem, ".png")
  {
    var q := stem + ".png";
    SplitExtCases(base);
    LastIndexIs(base, '/', -1);
    assert stem[0..] == stem;
    PngNameNoSlash(base, stem);
    LastIndexIs(q, '/', -1);
    LastIndexIs(q, '.', |stem|);
    assert q[0..|stem|] == stem && q[..|stem|] == stem && q[|stem|..] == ".png";
  }

  /** A name without slashes is its own base name. */
  lemma BaseNameOfName(name: string)
    requires forall j :: 0 <= j < |name| ==> name[j] != '/'
    ensures BaseName(name) == name
  {
    LastIndexIs(name, '/', -1);
    assert name[0..] == name;
  }

  lemma PngNotJpegExt()
    ensures !IsJpegExt(".png")
  {
    assert ".png"[1] == 'p' && ".jpg"[1] == 'j' && ".jpeg"[1] == 'j';
  }

  /** An output name is its own output name: a second pass renames nothing. */
  lemma OutputNameIdempotent(path: string)
    ensures OutputName(OutputName(path)) == OutputName(path)
  {
    var o := OutputName(path);
    var base := BaseName(path);
    var parts := SplitExt(base);
    OutputNameCases(path);
    BaseNameOfName(o);
    OutputNameCases(o);
    if IsJpegExt(parts.1) {
      PngNotJpegExt();
    }
  }

  /** `f"{stem}_{k}{ext}"` for the parts of `name`. */
  function Decorate(name: string, k: nat): (r: string)
    ensures |r| == |name| + 1 + |Digits(k)|
  {
    var (stem, ext) := SplitExt(name);
    stem + "_" + Digits(k) + ext
  }

  /** The plain output names of the inputs. */
  function Plains(paths: seq<string>): (r: seq<string>)
    ensures |r| == |paths| && forall i :: 0 <= i < |paths| ==> r[i] == OutputName(paths[i])
  {
    seq(|paths|, i requires 0 <= i < |paths| => OutputName(paths[i]))
  }

  // ---------------------------------------------------------------- as the source does it

  /** The `used_filenames` dictionary and the names handed out so far. */
  datatype Tally = Tally(used: map<string, nat>, out: seq<string>)

  /** One turn of the loop on the plain name of its input: a name seen before gets its
      incremented counter; a new name is entered with counter 0. */
  function Admit(t: Tally, name: string): Tally {
    if name in t.used then
      var k := t.used[name] + 1;
      Tally(t.used[name := k], t.out + [Decorate(name, k)])
    else
      Tally(t.used[name := 0], t.out + [name])
  }

  /** The loop over a sequence of plain names, from an empty dictionary. */
  function Run(ns: seq<string>): Tally
    decreases |ns|
  {
    if ns == [] then Tally(map[], []) else Admit(Run(ns[..|ns| - 1]), ns[|ns| - 1])
  }

  /** The loop of `process_directory` over the input files, as far as names go. */
  method DedupNames(paths: seq<string>) returns (out: seq<string>)
    ensures out == Run(Plains(paths)).out
  {
    ghost var ns := Plains(paths);
    var used: map<string, nat> := map[];
    out := [];
    for i := 0 to |paths|
      invariant Tally(used, out) == Run(ns[..i])
    {
      RunStep(ns, i);
      var name := OutputName(paths[i]);
      if name in used {
        used := used[name := used[name] + 1];
        var (stem, ext) := SplitExt(name);
        name := stem + "_" + Digits(used[name]) + ext;
      } else {
        used := used[name := 0];
      }
      out := out + [name];
    }
    assert ns[..|paths|] == ns;
  }

  lemma RunStep(ns: seq<string>, i: nat)
    requires i < |ns|
    ensures Run(ns[..i + 1]) == Admit(Run(ns[..i]), ns[i])
  {
    var next := ns[..i + 1];
    assert next != [] && next[..|next| - 1] == ns[..i] && next[|next| - 1] == ns[i];
  }

  /** The name the i-th input gets: its plain name the first time, and its plain name with
      suffix `_k` when k inputs before it had the same plain name. */
  function Numbered(ns: seq<string>, i: nat): string
    requires i < |ns|
  {
    var k := multiset(ns[..i])[ns[i]];
    if k == 0 then ns[i] else Decorate(ns[i], k)
  }

  /** The dictionary holds each plain name seen, with the number of its repeats, and the names
      handed out are numbered as `Numbered` says. */
  ghost predicate Counts(t: Tally, ns: seq<string>) {
    && |t.out| == |ns|
    && (forall n :: n in t.used <==> n in multiset(ns))
    && (forall n :: n in t.used ==> t.used[n] == multiset(ns)[n] - 1)
    && (forall i :: 0 <= i < |ns| ==> t.out[i] == Numbered(ns, i))
  }

  /** One turn of the loop keeps the counts. */
  lemma AdmitCounts(t: Tally, ns: seq<string>, name: string)
    requires Counts(t, ns)
    ensures Counts(Admit(t, name), ns + [name])
  {
    AdmitUsed(t, ns, name);
    AdmitLast(t, ns, name);
    AdmitKeeps(t, ns, name);
  }

  /** The names handed out before the turn stay as they were. */
  lemma AdmitKeeps(t: Tally, ns: seq<string>, name: string)
    requires |t.out| == |ns| && forall i :: 0 <= i < |ns| ==> t.out[i] == Numbered(ns, i)
    ensures forall i :: 0 <= i < |ns| ==> Admit(t, name).out[i] == Numbered(ns + [name], i)
  {
    var ns1, t1 := ns + [name], Admit(t, name);
    forall i | 0 <= i < |ns|
      ensures t1.out[i] == Numbered(ns1, i)
    {
      assert ns1[..i] == ns[..i] && ns1[i] == ns[i] && t1.out[i] == t.out[i];
    }
  }

  /** The dictionary after one turn holds the counts of the longer list. */
  lemma AdmitUsed(t: Tally, ns: seq<string>, name: string)
    requires forall n :: n in t.used <==> n in multiset(ns)
    requires forall n :: n in t.used ==> t.used[n] == multiset(ns)[n] - 1
    ensures var u, m := Admit(t, name).used, multiset(ns + [name]);
      (forall n :: n in u <==> n in m) && (forall n :: n in u ==> u[n] == m[n] - 1)
  {
    assert multiset(ns + [name]) == multiset(ns) + multiset{name};
  }

  /** The name handed out in one turn is the one `Numbered` gives the new last input. */
  lemma AdmitLast(t: Tally, ns: seq<string>, name: string)
    requires |t.out| == |ns| && (name in t.used <==> name in multiset(ns))
    requires name in t.used ==> t.used[name] == multiset(ns)[name] - 1
    ensures |Admit(t, name).out| == |ns| + 1
    ensures Admit(t, name).out[|ns|] == Numbered(ns + [name], |ns|)
  {
    var ns1 := ns + [name];
    assert ns1[..|ns|] == ns && ns1[|ns|] == name;
  }

  /** The dictionary counts repeats of plain names: the k-th repeat of a name is numbered k. */
  lemma {:induction false} RunCounts(ns: seq<string>)
    ensures Counts(Run(ns), ns)
    ensures forall i :: 0 <= i < |ns| ==> Run(ns).out[i] == Numbered(ns, i)
    decreases |ns|
  {
    if ns != [] {
      var m := |ns| - 1;
      RunCounts(ns[..m]);
      AdmitCounts(Run(ns[..m]), ns[..m], ns[m]);
      assert ns[..m] + [ns[m]] == ns;
    }
  }

  /** A name whose extension is not a JPEG one is kept as it is. */
  lemma KeepsName(path: string, base: string, stem: string, ext: string)
    requires BaseName(path) == base && SplitExt(base) == (stem, ext)
    requires Lower(ext) != ".jpg" && Lower(ext) != ".jpeg"
    ensures OutputName(path) == base
  {
  }

  lemma PngNotJpeg()
    ensures Lower(".png") != ".jpg" && Lower(".png") != ".jpeg"
  {
    assert Lower(".png")[1] == 'p' != ".jpg"[1];
  }

  lemma BaseNameAt(path: string, sep: nat, base: string)
    requires sep < |path| && path[sep] == '/' && path[sep + 1..] == base
    requires forall j :: sep < j < |path| ==> path[j] != '/'
    ensures BaseName(path) == base
  {
    LastIndexIs(path, '/', sep);
  }

  /** The extension split of a name whose only dot is at `dot`, after at least one other
      character. */
  lemma SplitAtDot(name: string, dot: nat)
    requires 0 < dot < |name| && name[dot] == '.' && name[0] != '.'
    requires forall j :: 0 <= j < |name| ==> name[j] != '/'
    requires forall j :: 0 <= j < |name| && j != dot ==> name[j] != '.'
    ensures SplitExt(name) == (name[..dot], name[dot..])
  {
    LastIndexIs(name, '/', -1);
    LastIndexIs(name, '.', dot);
    assert name[0..dot][0] == name[0];
  }

  lemma PlainX()
    ensures OutputName("x/a.png") == "a.png"
  {
    BaseNameAt("x/a.png", 1, "a.png");
    SplitAtDot("a.png", 1);
    assert "a.png"[..1] == "a" && "a.png"[1..] == ".png";
    PngNotJpeg();
    KeepsName("x/a.png", "a.png", "a", ".png");
  }

  lemma PlainY()
    ensures OutputName("y/a.png") == "a.png"
  {
    BaseNameAt("y/a.png", 1, "a.png");
    SplitAtDot("a.png", 1);
    assert "a.png"[..1] == "a" && "a.png"[1..] == ".png";
    PngNotJpeg();
    KeepsName("y/a.png", "a.png", "a", ".png");
  }

  lemma PlainZ()
    ensures OutputName("z/a_1.png") == "a_1.png"
  {
    BaseNameAt("z/a_1.png", 1, "a_1.png");
    SplitAtDot("a_1.png", 3);
    assert "a_1.png"[..3] == "a_1" && "a_1.png"[3..] == ".png";
    PngNotJpeg();
    KeepsName("z/a_1.png", "a_1.png", "a_1", ".png");
  }

  lemma PlainsOfThree(p0: string, p1: string, p2: string)
    ensures Plains([p0, p1, p2]) == [OutputName(p0), OutputName(p1), OutputName(p2)]
  {
    var ps := [p0, p1, p2];
    var r := Plains(ps);
    assert r[0] == OutputName(ps[0]) && r[1] == OutputName(ps[1]) && r[2] == OutputName(ps[2]);
  }

  /** Two inputs can be given the same output name: `x/a.png` and `y/a.png` make the second
      one `a_1.png`, and an input really named `a_1.png` then gets `a_1.png` as well, since the
      counter only knows undecorated names. The later conversion overwrites the earlier file. */
  lemma DedupCollision()
    ensures Run(Plains(["x/a.png", "y/a.png", "z/a_1.png"])).out == ["a.png", "a_1.png", "a_1.png"]
  {
    PlainX();
    PlainY();
    PlainZ();
    PlainsOfThree("x/a.png", "y/a.png", "z/a_1.png");
    CollisionDecorate();
    RepeatThenDecorated("a.png", "a_1.png");
  }

  lemma CollisionDecorate()
    ensures Decorate("a.png", 1) == "a_1.png"
  {
    SplitAtDot("a.png", 1);
    assert "a.png"[..1] == "a" && "a.png"[1..] == ".png";
    DigitsOne();
    assert "a" + "_" + "1" + ".png" == "a_1.png";
    DecorateParts("a.png", 1, "a", ".png", "1", "a_1.png");
  }

  lemma DigitsOne()
    ensures Digits(1) == "1"
  {
  }

  lemma DecorateParts(name: string, k: nat, stem: string, ext: string, digits: string, r: string)
    requires SplitExt(name) == (stem, ext) && Digits(k) == digits && stem + "_" + digits + ext == r
    ensures Decorate(name, k) == r
  {
  }

  /** A name twice, then the second one's numbered name: the third input gets the second one's
      name. */
  lemma RepeatThenDecorated(plain: string, numbered: string)
    requires Decorate(plain, 1) == numbered
    ensures Run([plain, plain, numbered]).out == [plain, numbered, numbered]
  {
    var ns := [plain, plain, numbered];
    assert ns[..2] == [plain, plain] && [plain, plain][..1] == [plain] && [plain][..0] == [];
    var t1 := Admit(Tally(map[], []), plain);
    assert Run([plain]) == t1;
    assert numbered != plain by {
      assert |numbered| == |plain| + 1 + |Digits(1)|;
    }
  }

  // ---------------------------------------------------------------- distinct names

  predicate Distinct(s: seq<string>) {
    forall i, j :: 0 <= i < j < |s| ==> s[i] != s[j]
  }

  function MaxLen(s: seq<string>): (r: nat)
    ensures forall j :: 0 <= j < |s| ==> |s[j]| <= r
    decreases |s|
  {
    if s == [] then 0 else
      var rest := MaxLen(s[1..]);
      assert forall j :: 1 <= j < |s| ==> s[j] == s[1..][j - 1];
      if |s[0]| > rest then |s[0]| else rest
  }

  /** A number at least 10^m has more than m digits. */
  lemma {:induction false} DigitsLength(k: nat, m: nat)
    requires k >= Pow10(m)
    ensures |Digits(k)| > m
    decreases m
  {
    if m > 0 {
      DigitsLength(k / 10, m - 1);
    }
  }

  /** A numbered name with a long enough counter is longer than every name handed out. */
  lemma FreshWhenLong(name: string, k: nat, out: seq<string>)
    requires Decorate(name, k) in out
    ensures k < Pow10(MaxLen(out))
  {
    if k >= Pow10(MaxLen(out)) {
      DigitsLength(k, MaxLen(out));
    }
  }

  /** What the i-th input is given: its plain name exactly when no earlier input took it, and
      otherwise its plain name with some counter. */
  ghost predicate Chosen(o: string, plain: string, before: seq<string>) {
    && (o == plain <==> plain !in before)
    && (o == plain || exists k: nat :: k >= 1 && o == Decorate(plain, k))
  }

  /** The counter search: from `k`, raise the counter until the numbered name is free. */
  method FreshName(name: string, k: nat, out: seq<string>) returns (candidate: string, chosen: nat)
    requires k >= 1
    ensures chosen >= k && candidate == Decorate(name, chosen) && candidate !in out
  {
    chosen := k;
    candidate := Decorate(name, chosen);
    ghost var bound := Pow10(MaxLen(out));
    while candidate in out
      invariant chosen >= k && candidate == Decorate(name, chosen)
      decreases bound - chosen
    {
      FreshWhenLong(name, chosen, out);
      chosen := chosen + 1;
      candidate := Decorate(name, chosen);
    }
  }

  /** A free numbered name is a valid choice for a plain name already handed out. */
  lemma ChosenNumbered(name: string, k: nat, out: seq<string>)
    requires name in out && k >= 1 && Decorate(name, k) !in out
    ensures Chosen(Decorate(name, k), name, out)
  {
  }

  lemma DistinctSnoc(out: seq<string>, c: string)
    requires Distinct(out) && c !in out
    ensures Distinct(out + [c])
  {
  }

  /** Every name handed out so far was chosen validly for its input. */
  ghost predicate AllChosen(out: seq<string>, plains: seq<string>) {
    |out| <= |plains| && forall j :: 0 <= j < |out| ==> Chosen(out[j], plains[j], out[..j])
  }

  /** Handing out one more name keeps the choices made so far. */
  lemma ChosenKept(out: seq<string>, plains: seq<string>, candidate: string)
    requires |out| < |plains| && AllChosen(out, plains) && Chosen(candidate, plains[|out|], out)
    ensures AllChosen(out + [candidate], plains)
  {
    var next := out + [candidate];
    assert next[..|out|] == out;
    forall j | 0 <= j < |out|
      ensures next[..j] == out[..j] && next[j] == out[j]
    {
    }
  }

  /** The dedup with the check the loop evidently intends: a name is numbered when it has
      already been handed out, and the counter is raised past every name handed out, so no
      two inputs share an output file. */
  method DedupNamesDistinct(paths: seq<string>) returns (out: seq<string>)
    ensures |out| == |paths| && Distinct(out)
    ensures forall i :: 0 <= i < |paths| ==> Chosen(out[i], Plains(paths)[i], out[..i])
  {
    var used: map<string, nat> := map[];
    ghost var plains := Plains(paths);
    out := [];
    for i := 0 to |paths|
      invariant |out| == i && Distinct(out) && AllChosen(out, plains)
    {
      var name := OutputName(paths[i]);
      assert plains[i] == name;
      var candidate := name;
      if name in out {
        var k: nat;
        candidate, k := FreshName(name, if name in used then used[name] + 1 else 1, out);
        used := used[name := k];
        ChosenNumbered(name, k, out);
      } else {
        used := used[name := 0];
        assert Chosen(name, name, out);
      }
      ChosenKept(out, plains, candidate);
      DistinctSnoc(out, candidate);
      out := out + [candidate];
    }
  }
}
