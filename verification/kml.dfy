/**
 * kml.h: the KML writer. `removeExt` is pure string slicing; the writer
 * object keeps an indentation counter (a `size_t`), a stack of open tags and
 * an output stream, modelled here as the string written so far.
 */
module Kml {
  import opened CppInt

  /** The characters `find_last_of("\\/.")` looks for. */
  const Marks: set<char> := {'\\', '/', '.'}

  /** `path.find_last_of("\\/.")`, with -1 standing for `npos`. */
  function LastMark(path: string): (pos: int)
    ensures -1 <= pos < |path|
    ensures pos >= 0 ==> path[pos] in Marks
    ensures forall k :: pos < k < |path| ==> path[k] !in Marks
  {
    if path == [] then -1
    else if path[|path| - 1] in Marks then |path| - 1
    else LastMark(path[..|path| - 1])
  }

  /**
   * `removeExt`: drops the extension of the last path component, that is
   * everything from the last '.' on, provided no '/' or '\\' follows it.
   * "." and ".." are names, not extensions.
   */
  function RemoveExt(path: string): (r: string)
    ensures r <= path
    ensures path == "." || path == ".." ==> r == path
    ensures r != path <==>
      path != "." && path != ".." &&
      exists p :: 0 <= p < |path| && path[p] == '.' && forall k :: p < k < |path| ==> path[k] !in Marks
    ensures r != path ==> path[|r|] == '.' && forall k :: |r| < k < |path| ==> path[k] !in Marks
  {
    if path == "." || path == ".." then path
    else
      var pos := LastMark(path);
      if pos != -1 && path[pos] == '.' then path[..pos] else path
  }

  /** The name `open` writes to: the input name with its extension replaced by ".kml". */
  function OutputName(fn: string): string {
    RemoveExt(fn) + ".kml"
  }

  /** Removing the extension of the output name gives back the base name. */
  lemma OutputNameBase(fn: string)
    ensures RemoveExt(OutputName(fn)) == RemoveExt(fn)
  {
    var base := RemoveExt(fn);
    var name := OutputName(fn);
    assert name[|base|] == '.';
    assert forall k :: |base| < k < |name| ==> name[k] !in Marks;
    assert name != "." && name != "..";
    assert RemoveExt(name) != name;
  }

  /** `k` copies of two spaces: what `indent` writes at depth `k`. */
  function Spaces(k: nat): (r: string)
    ensures |r| == 2 * k
    ensures forall i :: 0 <= i < |r| ==> r[i] == ' '
  {
    if k == 0 then "" else Spaces(k - 1) + "  "
  }

  /** The line `tagClose` writes for `tag` at indentation `ind`. */
  function CloseLine(tag: string, ind: nat): string {
    Spaces(ind / 2) + "</" + tag + ">\n"
  }

  /**
   * What `end` writes while it empties `stack` starting from indentation
   * `ind`: the most recent tag first, each closing line indented by the
   * indentation in force before that `tagClose` decrements it.
   */
  function ClosingTags(stack: seq<string>, ind: nat): string
    decreases |stack|
  {
    if stack == [] then ""
    else
      CloseLine(stack[|stack| - 1], ind) + ClosingTags(stack[..|stack| - 1], ToSize(ind - 2))
  }

  /** Text written in two pieces is the same text. */
  lemma Regroup(a: string, b: string, c: string)
    ensures a + (b + c) == (a + b) + c
  {
  }

  /** `size_t` arithmetic modulo 2^64 keeps an even counter even. */
  lemma ToSizeEven(x: int)
    requires x % 2 == 0
    ensures ToSize(x) % 2 == 0
  {
    var r := ToSize(x);
    var q := (r - x) / SizeModulus;
    assert r == x + q * SizeModulus;
    assert SizeModulus == 2 * 0x8000_0000_0000_0000;
    assert r == x + 2 * (q * 0x8000_0000_0000_0000);
  }

  class KmlWriter {
    /** Current indentation in spaces (`size_t`). */
    var indention: nat
    const indentStep: nat := 2
    /** Everything written to the output stream so far. */
    var out: string
    /** The open tags, the most recent last. */
    var tagStack: seq<string>

    /** The counter is a `size_t` and only ever moves by two. */
    predicate Valid()
      reads this
    {
      indention < SizeModulus && indention % 2 == 0
    }

    /** The indentation is one step per open tag. */
    predicate Balanced()
      reads this
    {
      indention == indentStep * |tagStack|
    }

    constructor()
      ensures Valid() && Balanced()
      ensures indention == 0 && tagStack == [] && out == ""
    {
      indention := 0;
      out := "";
      tagStack := [];
    }

    /** `incIndent`. */
    method IncIndent()
      requires Valid()
      modifies this
      ensures Valid()
      ensures indention == ToSize(old(indention) + indentStep)
      ensures out == old(out) && tagStack == old(tagStack)
    {
      ToSizeEven(indention + indentStep);
      indention := ToSize(indention + indentStep);
    }

    /** `decIndent`; on a zero counter the `size_t` subtraction wraps. */
    method DecIndent()
      requires Valid()
      modifies this
      ensures Valid()
      ensures indention == ToSize(old(indention) - indentStep)
      ensures out == old(out) && tagStack == old(tagStack)
    {
      ToSizeEven(indention - indentStep);
      indention := ToSize(indention - indentStep);
    }

    /** `indent`: two spaces per step, counting the counter down to zero. */
    method Indent()
      requires Valid()
      modifies this
      ensures Valid()
      ensures out == old(out) + Spaces(indention / 2)
      ensures indention == old(indention) && tagStack == old(tagStack)
    {
      var i := indention;
      while i > 0
        invariant 0 <= i <= indention && i % 2 == 0
        invariant out == old(out) + Spaces((indention - i) / 2)
        invariant indention == old(indention) && tagStack == old(tagStack)
      {
        out := out + "  ";
        i := i - 2;
      }
    }

    /** `tagOpen`: a new indented line opening `tag`. */
    method TagOpen(tag: string)
      requires Valid()
      modifies this
      ensures Valid()
      ensures indention == ToSize(old(indention) + indentStep)
      ensures tagStack == old(tagStack) + [tag]
      ensures out == old(out) + Spaces(indention / 2) + "<" + tag + ">\n"
      ensures old(Balanced()) && old(indention) + indentStep < SizeModulus ==> Balanced()
    {
      IncIndent();
      Indent();
      tagStack := tagStack + [tag];
      out := out + "<" + tag + ">\n";
    }

    /** `tagStart`: like `tagOpen`, but the element's opening bracket is left open. */
    method TagStart(tag: string)
      requires Valid()
      modifies this
      ensures Valid()
      ensures indention == ToSize(old(indention) + indentStep)
      ensures tagStack == old(tagStack) + [tag]
      ensures out == old(out) + Spaces(indention / 2) + "<" + tag + " "
      ensures old(Balanced()) && old(indention) + indentStep < SizeModulus ==> Balanced()
    {
      IncIndent();
      Indent();
      tagStack := tagStack + [tag];
      out := out + "<" + tag + " ";
    }

    /**
     * `tagClose`: closes the most recently opened tag at the current
     * indentation, then steps the indentation back.
     */
    method TagClose()
      requires Valid() && |tagStack| > 0
      modifies this
      ensures Valid()
      ensures out == old(out) + CloseLine(old(tagStack)[|old(tagStack)| - 1], old(indention))
      ensures tagStack == old(tagStack)[..|old(tagStack)| - 1]
      ensures indention == ToSize(old(indention) - indentStep)
      ensures old(Balanced()) ==> Balanced()
    {
      Indent();
      DecIndent();
      out := out + "</" + tagStack[|tagStack| - 1] + ">\n";
      assert out == old(out) + CloseLine(old(tagStack)[|old(tagStack)| - 1], old(indention));
      tagStack := tagStack[..|tagStack| - 1];
    }

    /** `end`: closes every open tag, most recent first, then the document. */
    method End()
      requires Valid()
      modifies this
      ensures Valid()
      ensures tagStack == []
      ensures out == old(out) + ClosingTags(old(tagStack), old(indention)) + "</kml>\n"
      ensures old(Balanced()) ==> indention == 0
    {
      while |tagStack| > 0
        invariant Valid()
        invariant old(Balanced()) ==> Balanced()
        invariant old(out) + ClosingTags(old(tagStack), old(indention)) == out + ClosingTags(tagStack, indention)
        decreases |tagStack|
      {
        ghost var before := out;
        ghost var line := CloseLine(tagStack[|tagStack| - 1], indention);
        TagClose();
        Regroup(before, line, ClosingTags(tagStack, indention));
      }
      out := out + "</kml>\n";
    }
  }

  /**
   * `tagClose` undoes `tagOpen`: the counter and the stack are restored and
   * the closing line has the indentation of the opening line.
   */
  method OpenThenClose(w: KmlWriter, tag: string)
    requires w.Valid() && w.indention + w.indentStep < SizeModulus
    modifies w
    ensures w.Valid()
    ensures w.indention == old(w.indention) && w.tagStack == old(w.tagStack)
    ensures w.out == old(w.out) + Spaces(old(w.indention) / 2 + 1) + "<" + tag + ">\n" +
                     CloseLine(tag, old(w.indention) + w.indentStep)
  {
    w.TagOpen(tag);
    w.TagClose();
  }
}
