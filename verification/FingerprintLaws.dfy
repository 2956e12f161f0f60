/** What a fingerprint is made of (`content_fingerprint`, src/authoring/build.rs), line by
    line. */
module FingerprintLaws {
  import opened Base
  import opened Texts
  import opened Sorting
  import opened Manifest
  import opened Fingerprint

  function Yes(b: bool): string
  {
    if b then "true" else "false"
  }

  function Words(b: Build): (r: seq<string>)
    ensures |r| == 3 + |b.mods| + |b.assets|
  {
    ["mc\t" + b.minecraft, "loader\t" + b.loader.name + "\t" + b.loader.version, "java\t" + Decimal(b.java)]
    + seq(|b.mods|, i requires 0 <= i < |b.mods| =>
          var m := b.mods[i];
          "mod\t" + m.filename + "\t" + m.sha1 + "\t" + Yes(m.required) + "\t" + Yes(m.defaultEnabled))
    + seq(|b.assets|, i requires 0 <= i < |b.assets| =>
          var a := b.assets[i];
          "asset\t" + a.dest + "\t" + a.sha1 + "\t" + Yes(a.required))
  }

  /** The hashed text is the words of the build, each on its line, in byte order. */
  lemma PreimageReads(b: Build)
    ensures exists lines: seq<string> ::
      Ordered(lines) && multiset(lines) == multiset(Words(b)) && Preimage(b) == Join(lines, "\n")
  {
    WordsAreLines(b);
    assert Ordered(Sort(Words(b)));
  }

  lemma WordsAreLines(b: Build)
    ensures RenderAll(LinesOf(b)) == Words(b)
  {
    var lines, words := LinesOf(b), Words(b);
    forall i | 0 <= i < |lines| ensures Render(lines[i]) == words[i] {
      LineReads(lines[i]);
    }
    hide Render, LinesOf, Words;
    RenderedInOrder(lines, words);
  }

  lemma {:induction false} RenderedInOrder(lines: seq<Line>, words: seq<string>)
    requires |lines| == |words| && forall i :: 0 <= i < |lines| ==> Render(lines[i]) == words[i]
    ensures RenderAll(lines) == words
  {
    if lines != [] {
      var n := |lines| - 1;
      RenderedInOrder(lines[..n], words[..n]);
      assert words == words[..n] + [words[n]];
    }
  }

  lemma LineReads(line: Line)
    ensures Render(line)
         == match line
            case McLine(v) => "mc\t" + v
            case LoaderLine(n, v) => "loader\t" + n + "\t" + v
            case JavaLine(major) => "java\t" + Decimal(major)
            case ModLine(f, h, r, e) => "mod\t" + f + "\t" + h + "\t" + Yes(r) + "\t" + Yes(e)
            case AssetLine(d, h, r) => "asset\t" + d + "\t" + h + "\t" + Yes(r)
  {
    RenderIs(line);
    SaysYes();
    hide Render, Decimal, BoolText, Yes;
    match line
    case McLine(_) => assert "mc" + "\t" == "mc\t";
    case LoaderLine(n, v) => Ungrouped("loader", "loader\t", n, v, "", "");
    case JavaLine(_) => assert "java" + "\t" == "java\t";
    case ModLine(f, h, r, e) => Ungrouped("mod", "mod\t", f, h, Yes(r), Yes(e));
    case AssetLine(d, h, r) => Ungrouped("asset", "asset\t", d, h, Yes(r), "");
  }

  lemma SaysYes()
    ensures forall b :: BoolText(b) == Yes(b)
  {
  }

  lemma Ungrouped(kind: string, front: string, a: string, b: string, c: string, d: string)
    requires front == kind + "\t"
    ensures kind + "\t" + (a + "\t" + b) == front + a + "\t" + b
    ensures kind + "\t" + ((a + "\t" + b) + "\t" + c) == front + a + "\t" + b + "\t" + c
    ensures kind + "\t" + (((a + "\t" + b) + "\t" + c) + "\t" + d) == front + a + "\t" + b + "\t" + c + "\t" + d
  {
    var e := a + "\t" + b;
    assert kind + "\t" + e == front + a + "\t" + b;
    assert kind + "\t" + (e + "\t" + c) == (kind + "\t" + e) + "\t" + c;
    var f := e + "\t" + c;
    assert kind + "\t" + (f + "\t" + d) == (kind + "\t" + f) + "\t" + d;
  }
}
