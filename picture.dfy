/** The picture component's URL derivation: from an image path relative to the image
    root, the URLs of the narrow-layout source, the wide-layout source set (with an
    optional double-density candidate) and the fallback image. */
module Picture {
  import opened Js
  import opened Configuration

  /** Positions i and i + 1 both hold a slash. */
  predicate DoubleSlashAt(s: string, i: int)
    requires 0 <= i < |s| - 1
  {
    s[i] == '/' && s[i + 1] == '/'
  }

  /** No two adjacent slashes. */
  predicate NoDoubleSlash(s: string) {
    forall i :: 0 <= i < |s| - 1 ==> !DoubleSlashAt(s, i)
  }

  /** The characters of s other than '/', in order. */
  function NonSlash(s: string): string
    decreases |s|
  {
    if s == [] then [] else (if s[0] == '/' then [] else [s[0]]) + NonSlash(s[1..])
  }

  lemma {:induction false} NonSlashConcat(a: string, b: string)
    ensures NonSlash(a + b) == NonSlash(a) + NonSlash(b)
    decreases |a|
  {
    if a != [] {
      assert (a + b)[0] == a[0];
      assert (a + b)[1..] == a[1..] + b;
      NonSlashConcat(a[1..], b);
    } else {
      assert a + b == b;
    }
  }

  /** The rest of s after the run of slashes it starts with (the greedy `/+`). */
  function SkipSlashes(s: string): (r: string)
    ensures |r| <= |s| && r == s[|s| - |r|..]
    ensures r == [] || r[0] != '/'
    ensures forall i :: 0 <= i < |s| - |r| ==> s[i] == '/'
    decreases |s|
  {
    if s != [] && s[0] == '/' then SkipSlashes(s[1..]) else s
  }

  /** str.replace(/\/+/g, '/'): every maximal run of slashes becomes one slash. */
  function CollapseSlashes(s: string): (r: string)
    ensures |r| <= |s|
    ensures s != [] ==> r != [] && r[0] == s[0]
    decreases |s|
  {
    if s == [] then []
    else if s[0] != '/' then [s[0]] + CollapseSlashes(s[1..])
    else ['/'] + CollapseSlashes(SkipSlashes(s))
  }

  /** Collapsing leaves no two adjacent slashes. */
  lemma {:induction false} CollapseNoDoubleSlash(s: string)
    ensures NoDoubleSlash(CollapseSlashes(s))
    decreases |s|
  {
    if s != [] {
      if s[0] != '/' {
        CollapseNoDoubleSlash(s[1..]);
        NoDoubleSlashCons(s[0], CollapseSlashes(s[1..]));
      } else {
        var rest := SkipSlashes(s);
        assert |rest| < |s|;
        CollapseNoDoubleSlash(rest);
        NoDoubleSlashCons('/', CollapseSlashes(rest));
      }
    }
  }

  /** A character before a string without double slashes makes none, unless both are slashes. */
  lemma NoDoubleSlashCons(c: char, t: string)
    requires NoDoubleSlash(t)
    requires c != '/' || t == [] || t[0] != '/'
    ensures NoDoubleSlash([c] + t)
  {
    var s := [c] + t;
    forall i | 0 <= i < |s| - 1
      ensures !DoubleSlashAt(s, i)
    {
      if i > 0 {
        assert !DoubleSlashAt(t, i - 1);
        assert s[i] == t[i - 1] && s[i + 1] == t[i];
      }
    }
  }

  /** Collapsing drops slashes only: every other character is kept, in order. */
  lemma {:induction false} CollapseKeepsText(s: string)
    ensures NonSlash(CollapseSlashes(s)) == NonSlash(s)
    decreases |s|
  {
    if s == [] {
    } else if s[0] != '/' {
      CollapseKeepsText(s[1..]);
      NonSlashConcat([s[0]], CollapseSlashes(s[1..]));
    } else {
      var rest := SkipSlashes(s);
      CollapseKeepsText(rest);
      NonSlashConcat(['/'], CollapseSlashes(rest));
      SkipSlashesKeepsText(s);
    }
  }

  /** Skipping a run of slashes drops no other character. */
  lemma SkipSlashesKeepsText(s: string)
    ensures NonSlash(SkipSlashes(s)) == NonSlash(s)
  {
    var rest := SkipSlashes(s);
    var run := s[..|s| - |rest|];
    assert s == run + rest;
    NonSlashConcat(run, rest);
    SlashesOnly(run);
  }

  /** A string of slashes has no other characters. */
  lemma {:induction false} SlashesOnly(run: string)
    requires forall i :: 0 <= i < |run| ==> run[i] == '/'
    ensures NonSlash(run) == []
    decreases |run|
  {
    if run != [] {
      SlashesOnly(run[1..]);
    }
  }

  /** A string without a double slash is left as it is. */
  lemma {:induction false} CollapseFixpoint(s: string)
    requires NoDoubleSlash(s)
    ensures CollapseSlashes(s) == s
    decreases |s|
  {
    if s != [] {
      NoDoubleSlashTail(s);
      CollapseFixpoint(s[1..]);
      CollapseFixpointStep(s);
    }
  }

  /** The step of CollapseFixpoint: a string whose tail is left as it is, and which
      does not start with two slashes, is left as it is. */
  lemma CollapseFixpointStep(s: string)
    requires s != [] && NoDoubleSlash(s)
    requires CollapseSlashes(s[1..]) == s[1..]
    ensures CollapseSlashes(s) == s
  {
    var tail := s[1..];
    if s[0] == '/' {
      if tail != [] {
        assert !DoubleSlashAt(s, 0);
      }
      assert SkipSlashes(s) == tail;
    }
    assert s == [s[0]] + tail;
  }

  /** Dropping the first character keeps a string free of double slashes. */
  lemma NoDoubleSlashTail(s: string)
    requires s != [] && NoDoubleSlash(s)
    ensures NoDoubleSlash(s[1..])
  {
    var tail := s[1..];
    forall i | 0 <= i < |tail| - 1
      ensures !DoubleSlashAt(tail, i)
    {
      assert !DoubleSlashAt(s, i + 1);
      assert tail[i] == s[i + 1] && tail[i + 1] == s[i + 2];
    }
  }

  /** Collapsing twice is collapsing once. */
  lemma CollapseIdempotent(s: string)
    ensures CollapseSlashes(CollapseSlashes(s)) == CollapseSlashes(s)
  {
    CollapseNoDoubleSlash(s);
    CollapseFixpoint(CollapseSlashes(s));
  }

  /** Skipping the leading run of a + b skips into b only when a is all slashes. */
  lemma {:induction false} SkipSlashesConcat(a: string, b: string)
    requires SkipSlashes(a) != [] || b == [] || b[0] != '/'
    ensures SkipSlashes(a + b) == SkipSlashes(a) + b
    decreases |a|
  {
    if a != [] && a[0] == '/' {
      assert (a + b)[1..] == a[1..] + b;
      SkipSlashesConcat(a[1..], b);
    }
  }

  /** Where no run of slashes straddles the boundary, collapsing a concatenation
      collapses each side. */
  lemma {:induction false} CollapseConcat(a: string, b: string)
    requires a == [] || b == [] || a[|a| - 1] != '/' || b[0] != '/'
    ensures CollapseSlashes(a + b) == CollapseSlashes(a) + CollapseSlashes(b)
    decreases |a|
  {
    if a == [] {
      assert a + b == b;
    } else if a[0] != '/' {
      CollapseConcat(a[1..], b);
      CollapseConcatStep(a, b);
    } else {
      SkipSlashesBoundary(a, b);
      CollapseConcat(SkipSlashes(a), b);
      CollapseConcatRun(a, b);
    }
  }

  /** The step of CollapseConcat past a first character that is not a slash. */
  lemma CollapseConcatStep(a: string, b: string)
    requires a != [] && a[0] != '/'
    requires CollapseSlashes(a[1..] + b) == CollapseSlashes(a[1..]) + CollapseSlashes(b)
    ensures CollapseSlashes(a + b) == CollapseSlashes(a) + CollapseSlashes(b)
  {
    var c, d := CollapseSlashes(a[1..]), CollapseSlashes(b);
    var ab := a + b;
    DropFirst(a, b);
    assert CollapseSlashes(ab) == [a[0]] + CollapseSlashes(ab[1..]);
    assert CollapseSlashes(a) == [a[0]] + c;
    Associative([a[0]], c, d);
  }

  /** The step of CollapseConcat past a first run of slashes that ends inside a. */
  lemma CollapseConcatRun(a: string, b: string)
    requires a != [] && a[0] == '/'
    requires SkipSlashes(a + b) == SkipSlashes(a) + b
    requires CollapseSlashes(SkipSlashes(a) + b) == CollapseSlashes(SkipSlashes(a)) + CollapseSlashes(b)
    ensures CollapseSlashes(a + b) == CollapseSlashes(a) + CollapseSlashes(b)
  {
    var c, d := CollapseSlashes(SkipSlashes(a)), CollapseSlashes(b);
    assert (a + b)[0] == '/';
    assert CollapseSlashes(a + b) == ['/'] + (c + d);
    assert CollapseSlashes(a) == ['/'] + c;
    Associative(['/'], c, d);
  }

  /** Skipping the leading run of slashes of a + b, for a starting with a slash and no
      run across the boundary, skips within a and keeps the boundary condition. */
  lemma SkipSlashesBoundary(a: string, b: string)
    requires a != [] && a[0] == '/'
    requires b == [] || a[|a| - 1] != '/' || b[0] != '/'
    ensures SkipSlashes(a + b) == SkipSlashes(a) + b
    ensures var rest := SkipSlashes(a); rest == [] || b == [] || rest[|rest| - 1] != '/' || b[0] != '/'
  {
    var rest := SkipSlashes(a);
    if rest == [] {
      assert a[|a| - 1] == '/';
    } else {
      assert rest[|rest| - 1] == a[|a| - 1];
    }
    SkipSlashesConcat(a, b);
  }

  /** The extension: the text after the last '.', lower-cased; the whole path when it
      has no '.'. */
  function Extension(src: string): (r: string)
    ensures |r| == |AfterLast(src, '.')|
    ensures '.' !in src ==> r == ToLowerCase(src)
  {
    ToLowerCase(AfterLast(src, '.'))
  }

  /** The file name: the text after the last '/'. */
  function FileName(src: string): (r: string)
    ensures '/' !in r
    ensures '/' !in src ==> r == src
  {
    AfterLast(src, '/')
  }

  /** The sub-directory: the text up to and including the last '/', or '' without one. */
  function SubDirectory(src: string): (r: string)
    ensures r + FileName(src) == src
    ensures '/' !in src ==> r == ""
    ensures '/' in src ==> |r| > 0 && r[|r| - 1] == '/'
  {
    UpToLast(src, '/')
  }

  /** The directory of the image: the image root followed by the sub-directory. */
  function ImagePath(config: Config, src: string): (r: string)
    ensures r == config.imgDir + SubDirectory(src)
    ensures '/' !in src ==> r == config.imgDir
    ensures '/' in src ==> |r| > |config.imgDir| && r[..|config.imgDir|] == config.imgDir && r[|r| - 1] == '/'
  {
    config.imgDir + SubDirectory(src)
  }

  /** The URL of the image in one layout directory, slashes collapsed. */
  function ImageUrl(config: Config, src: string, layoutDir: string): (r: string)
    ensures NoDoubleSlash(r)
    ensures NonSlash(r) == NonSlash(config.imgDir + SubDirectory(src) + layoutDir + FileName(src))
    ensures r == CollapseSlashes(ImagePath(config, src) + layoutDir) + FileName(src)
  {
    var dir := ImagePath(config, src) + layoutDir;
    CollapseKeepsText(dir + FileName(src));
    CollapseNoDoubleSlash(dir + FileName(src));
    CollapseConcat(dir, FileName(src));
    CollapseFixpoint(FileName(src));
    CollapseSlashes(dir + FileName(src))
  }

  /** The path with its first ".ext" replaced by "@2x.ext". */
  function RetinaSource(src: string): (r: string)
    ensures IndexOf(src, "." + Extension(src)).None? ==> r == src
  {
    Replace(src, "." + Extension(src), "@2x." + Extension(src))
  }

  /** The URL of the double-density image in the wide-layout directory: the collapsed
      directory, then the file name of the double-density path. */
  function RetinaUrl(config: Config, src: string): (r: string)
    ensures NoDoubleSlash(r)
    ensures r == CollapseSlashes(ImagePath(config, src) + config.imgPc) + FileName(RetinaSource(src))
  {
    var dir := ImagePath(config, src) + config.imgPc;
    var name := FileName(RetinaSource(src));
    CollapseNoDoubleSlash(dir + name);
    CollapseConcat(dir, name);
    CollapseFixpoint(name);
    CollapseSlashes(dir + name)
  }

  /** Collapsing a second candidate ", url 2x" collapses only its URL. */
  lemma CollapseCandidate(url: string)
    ensures CollapseSlashes(", " + url + " 2x") == ", " + CollapseSlashes(url) + " 2x"
  {
    CollapseConcat(", " + url, " 2x");
    CollapseConcat(", ", url);
    CollapseFixpoint(", ");
    CollapseFixpoint(" 2x");
  }

  /** generateSourceSet: the wide-layout image URL, followed, with retina, by the
      double-density URL marked "2x". */
  function SourceSet(config: Config, src: string, retina: bool): (r: string)
    ensures retina ==> r == ImageUrl(config, src, config.imgPc) + ", " + RetinaUrl(config, src) + " 2x"
    ensures !retina ==> r == ImageUrl(config, src, config.imgPc)
  {
    var url := CollapseSlashes(ImagePath(config, src) + config.imgPc + FileName(src));
    if retina then
      var retinaUrl := ImagePath(config, src) + config.imgPc + FileName(RetinaSource(src));
      CollapseCandidate(retinaUrl);
      Associative(url, ", " + CollapseSlashes(retinaUrl), " 2x");
      Associative(url, ", ", CollapseSlashes(retinaUrl));
      url + CollapseSlashes(", " + retinaUrl + " 2x")
    else
      url
  }

  /** A `<source>` element. */
  datatype Source = Source(media: string, srcSet: string)

  /** The fallback `<img>` element; `loading` is absent when lazy loading is off. */
  datatype Img = Img(src: string, alt: string, loading: Option<string>)

  /** The rendered `<picture>`: the narrow source, the wide source, the fallback. */
  datatype Element = Element(spSource: Source, pcSource: Source, img: Img)

  /** The rendered picture for an image path. */
  function Render(config: Config, src: string, alt: string, retina: bool := true,
                  lazyLoad: bool := true): (r: Element)
    ensures r.spSource.media == "(max-width: " + IntText(config.spBreakpoint) + "px)"
    ensures r.pcSource.media == "(min-width: " + IntText(config.pcBreakpoint) + "px)"
    ensures r.spSource.srcSet == ImageUrl(config, src, config.imgSp)
    ensures r.pcSource.srcSet == SourceSet(config, src, retina)
    ensures r.img.src == ImageUrl(config, src, config.imgPc)
    ensures r.img.alt == alt
    ensures r.img.loading.Some? <==> lazyLoad
    ensures r.img.loading.Some? ==> r.img.loading.value == "lazy"
  {
    var loading := if lazyLoad then Some("lazy") else None;
    var path := ImagePath(config, src);
    Element(
      Source("(max-width: " + IntText(config.spBreakpoint) + "px)",
             CollapseSlashes(path + config.imgSp + FileName(src))),
      Source("(min-width: " + IntText(config.pcBreakpoint) + "px)", SourceSet(config, src, retina)),
      Img(CollapseSlashes(path + config.imgPc + FileName(src)), alt, loading))
  }

  /** Without retina the wide source and the fallback image name the same URL. */
  lemma PlainSourceIsImage(config: Config, src: string, alt: string, lazyLoad: bool)
    ensures Render(config, src, alt, false, lazyLoad).pcSource.srcSet
         == Render(config, src, alt, false, lazyLoad).img.src
  {
  }

  /** The narrow source is the fallback image with the narrow directory in place of
      the wide one. */
  lemma NarrowSourceSwapsDirectory(config: Config, src: string, alt: string, retina: bool, lazyLoad: bool)
    ensures Render(config, src, alt, retina, lazyLoad).spSource.srcSet
         == Render(config.(imgPc := config.imgSp), src, alt, retina, lazyLoad).img.src
  {
  }

  /** No emitted URL holds a double slash, the source set included. */
  lemma NoDoubleSlashAnywhere(config: Config, src: string, alt: string, retina: bool, lazyLoad: bool)
    ensures var r := Render(config, src, alt, retina, lazyLoad);
      NoDoubleSlash(r.spSource.srcSet) && NoDoubleSlash(r.pcSource.srcSet) && NoDoubleSlash(r.img.src)
  {
    SourceSetNoDoubleSlash(config, src, retina);
  }

  /** The source set holds no double slash, with or without its second candidate. */
  lemma SourceSetNoDoubleSlash(config: Config, src: string, retina: bool)
    ensures NoDoubleSlash(SourceSet(config, src, retina))
  {
    var raw := ImagePath(config, src) + config.imgPc + FileName(src);
    var url := CollapseSlashes(raw);
    CollapseNoDoubleSlash(raw);
    if retina {
      var retinaUrl := ImagePath(config, src) + config.imgPc + FileName(RetinaSource(src));
      var candidate := CollapseSlashes(", " + retinaUrl + " 2x");
      CollapseNoDoubleSlash(", " + retinaUrl + " 2x");
      assert candidate[0] == ',';
      NoDoubleSlashConcat(url, candidate);
      assert SourceSet(config, src, retina) == url + candidate;
    }
  }

  /** Two strings without double slashes, not both slashes where they meet, make none. */
  lemma NoDoubleSlashConcat(a: string, b: string)
    requires NoDoubleSlash(a) && NoDoubleSlash(b)
    requires a == [] || b == [] || a[|a| - 1] != '/' || b[0] != '/'
    ensures NoDoubleSlash(a + b)
  {
    var s := a + b;
    forall i | 0 <= i < |s| - 1
      ensures !DoubleSlashAt(s, i)
    {
      if i < |a| - 1 {
        assert !DoubleSlashAt(a, i);
      } else if i >= |a| {
        assert !DoubleSlashAt(b, i - |a|);
        assert s[i] == b[i - |a|] && s[i + 1] == b[i - |a| + 1];
      }
    }
  }

  /** When ".ext" does not occur in the path as written (an upper-case extension, say,
      since the extension is lower-cased first), the double-density URL is the plain one. */
  lemma RetinaWithoutOccurrence(config: Config, src: string)
    requires IndexOf(src, "." + Extension(src)).None?
    ensures RetinaUrl(config, src) == ImageUrl(config, src, config.imgPc)
  {
  }

  /** AfterLast of a directory (empty or ending in the separator) followed by a
      separator-free name is the name. */
  lemma AfterLastOfName(dir: string, name: string)
    requires dir == [] || dir[|dir| - 1] == '/'
    requires '/' !in name
    ensures AfterLast(dir + name, '/') == name
  {
    var s := dir + name;
    var r := AfterLast(s, '/');
    if dir == [] {
      assert s == name;
    } else {
      assert s[|dir| - 1] == '/';
      assert r == s[|s| - |name|..];
      assert s[|s| - |name|..] == name;
    }
  }

  /** In a path with one '.', ".ext" first occurs at that '.'. */
  lemma DotExtensionAt(head: string, ext: string)
    requires '.' !in head
    ensures IndexOf(head + ("." + ext), "." + ext) == Some(|head|)
  {
    var pattern := "." + ext;
    var src := head + pattern;
    var p := |head|;
    assert src[p..] == pattern;
    forall k | 0 <= k < p
      ensures !OccursAt(src, pattern, k)
    {
      assert src[k] == head[k] != '.';
      if k + |pattern| <= |src| {
        assert src[k..k + |pattern|][0] == src[k] != pattern[0];
      }
    }
    IndexOfFirst(src, pattern, p);
  }

  /** The extension of a path whose last '.' is followed by ext is ext, lower-cased. */
  lemma ExtensionAfterDot(head: string, ext: string)
    requires '.' !in ext
    ensures Extension(head + ("." + ext)) == ToLowerCase(ext)
  {
    assert head + "." + ext == head + ("." + ext);
    AfterLastOfDot(head, ext);
  }

  /** A path with one '.', before a lower-case extension, gets "@2x" inserted before
      that '.'. */
  lemma RetinaSourceTypical(head: string, ext: string)
    requires '.' !in head && '.' !in ext && '$' !in ext
    requires ToLowerCase(ext) == ext
    ensures RetinaSource(head + ("." + ext)) == head + ("@2x." + ext)
  {
    var src := head + ("." + ext);
    ExtensionAfterDot(head, ext);
    DotExtensionAt(head, ext);
    var replacement := "@2x." + ext;
    assert src[..|head|] == head;
    assert src[|head| + |"." + ext|..] == [];
    assert head + replacement + [] == head + replacement;
  }

  /** The typical case: a file "stem.ext" with a lower-case extension, in a directory
      holding no '.', gets the double-density name "stem@2x.ext". */
  lemma RetinaTypical(dir: string, stem: string, ext: string)
    requires dir == [] || dir[|dir| - 1] == '/'
    requires '.' !in dir && '.' !in stem && '/' !in stem
    requires '.' !in ext && '/' !in ext && '$' !in ext
    requires ToLowerCase(ext) == ext
    ensures FileName(RetinaSource(dir + stem + ("." + ext))) == stem + ("@2x." + ext)
  {
    var tail := "@2x." + ext;
    RetinaSourceTypical(dir + stem, ext);
    Associative(dir, stem, tail);
    AfterLastOfName(dir, stem + tail);
  }

  /** AfterLast with the '.' separator of a dot-free head, a '.', and a dot-free tail. */
  lemma AfterLastOfDot(head: string, tail: string)
    requires '.' !in tail
    ensures AfterLast(head + "." + tail, '.') == tail
  {
    var s := head + "." + tail;
    var r := AfterLast(s, '.');
    assert s[|head|] == '.';
    assert r == s[|s| - |tail|..];
    assert s[|s| - |tail|..] == tail;
  }
}
