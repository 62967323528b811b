/** The traceback formatter of the client: one line of text per stack frame,
    naming the file, the line number and the function, followed by the
    stripped source line when it is known. */
module Traceback {
  import opened Runtime
  import opened PyStr

  /** One entry of `traceback.extract_tb`: file name, line number, function
      name and the source text of the line (`None` or empty when unknown). */
  datatype Frame = Frame(filename: string, lineno: int, name: string, line: Option<string>)

  const ErrorIn: string := "): error in "

  /** `'%s(%d): error in %s' % (filename, lineno, name)`. */
  function Header(f: Frame): string
  {
    f.filename + "(" + IntToStr(f.lineno) + ErrorIn + f.name
  }

  /** The pieces of a header can be read back: the file name first, then
      '(', the line number in decimal, "): error in ", and the function
      name last. */
  lemma HeaderShape(f: Frame)
    ensures var h := Header(f);
            && |h| == |f.filename| + 1 + |IntToStr(f.lineno)| + |ErrorIn| + |f.name|
            && f.filename <= h && h[|f.filename|] == '('
            && h[|f.filename| + 1..|f.filename| + 1 + |IntToStr(f.lineno)|] == IntToStr(f.lineno)
            && h[|f.filename| + 1 + |IntToStr(f.lineno)|..|h| - |f.name|] == ErrorIn
            && h[|h| - |f.name|..] == f.name
  {
    var digits := IntToStr(f.lineno);
    var h := Header(f);
    assert h == f.filename + "(" + digits + ErrorIn + f.name;
    assert h[|f.filename| + 1..|f.filename| + 1 + |digits|] == digits;
  }

  /** The entry for one frame: the header, then either a tab-indented copy
      of the source line without its surrounding whitespace, or a full stop
      when the source line is unknown or empty. */
  function FormatFrame(f: Frame): (s: string)
  {
    var h := Header(f);
    if Truthy(f.line) then h + "\n\t" + Strip(f.line.value) else h + "."
  }

  /** An entry starts with the frame's header; what follows is a full stop
      exactly when the source line is falsy, and otherwise a newline, a tab
      and the stripped source line. */
  lemma EntryShape(f: Frame)
    ensures var s := FormatFrame(f);
            var h := Header(f);
            && h <= s
            && (!Truthy(f.line) ==> s[|h|..] == ".")
            && (Truthy(f.line) ==> |s| >= |h| + 2 && s[|h|..|h| + 2] == "\n\t" && s[|h| + 2..] == Strip(f.line.value))
  {
    var h := Header(f);
    if Truthy(f.line) {
      var s := h + "\n\t" + Strip(f.line.value);
      assert s[|h| + 2..] == Strip(f.line.value);
    }
  }

  /** The text shown after the tab is the source line with its leading and
      trailing whitespace cut off, and it neither starts nor ends with
      whitespace. */
  lemma SourceLineIsTrimmed(f: Frame)
    requires Truthy(f.line)
    ensures |FormatFrame(f)| >= |Header(f)| + 2
    ensures var v := f.line.value;
            var t := FormatFrame(f)[|Header(f)| + 2..];
            && Trims(v, |v| - |LStrip(v)|, t)
            && (t == [] || (!IsSpace(t[0]) && !IsSpace(t[|t| - 1])))
  {
    EntryShape(f);
    StripTrims(f.line.value);
  }

  /** The list `format(tb)` returns: entry `k` is the entry for frame `k`. */
  function FormatAll(frames: seq<Frame>): (items: seq<string>)
    ensures |items| == |frames|
  {
    seq(|frames|, k requires 0 <= k < |frames| => FormatFrame(frames[k]))
  }

  /** `format(tb, limit)`: walks the extracted frames in order and appends
      one entry per frame. `limit` is accepted but never used, so it is
      not a parameter here. */
  method Format(frames: seq<Frame>) returns (items: seq<string>)
    ensures items == FormatAll(frames)
  {
    items := [];
    for i := 0 to |frames|
      invariant items == FormatAll(frames[..i])
    {
      FormatAllAppend(frames[..i], [frames[i]]);
      assert frames[..i] + [frames[i]] == frames[..i + 1];
      items := items + [FormatFrame(frames[i])];
    }
    assert frames[..|frames|] == frames;
  }

  /** Formatting is frame by frame: the entries of a traceback split at any
      frame are the entries of the two parts, in order. */
  lemma FormatAllAppend(a: seq<Frame>, b: seq<Frame>)
    ensures FormatAll(a + b) == FormatAll(a) + FormatAll(b)
  {
    forall k | 0 <= k < |a| + |b|
      ensures FormatAll(a + b)[k] == (FormatAll(a) + FormatAll(b))[k]
    {
      if k < |a| {
        assert (a + b)[k] == a[k];
      } else {
        assert (a + b)[k] == b[k - |a|];
      }
    }
  }

  /** The line number in an entry reads back as the frame's line number. */
  lemma LineNumberReadsBack(f: Frame)
    ensures var s := FormatFrame(f);
            var d := IntToStr(f.lineno);
            && |f.filename| + 1 + |d| <= |s|
            && s[|f.filename| + 1..|f.filename| + 1 + |d|] == d
            && ParseInt(d) == f.lineno
  {
    var d := IntToStr(f.lineno);
    EntryShape(f);
    HeaderShape(f);
    SliceOfPrefix(FormatFrame(f), Header(f), |f.filename| + 1, |f.filename| + 1 + |d|);
    IntToStrRoundTrip(f.lineno);
  }

  /** A slice within a prefix is the same slice of the whole. */
  lemma SliceOfPrefix(s: string, h: string, i: nat, j: nat)
    requires h <= s && i <= j <= |h|
    ensures s[i..j] == h[i..j]
  {
  }

  /** When neither the file name nor the function name holds a newline, an
      entry spans several lines exactly when the frame's source line is
      known and non-empty. */
  lemma ShowsSourceIffTruthy(f: Frame)
    requires '\n' !in f.filename && '\n' !in f.name
    ensures '\n' in FormatFrame(f) <==> Truthy(f.line)
  {
    var h := Header(f);
    var s := FormatFrame(f);
    var d := IntToStr(f.lineno);
    assert h == f.filename + "(" + d + ErrorIn + f.name;
    assert '\n' !in d;
    assert '\n' !in h;
    if Truthy(f.line) {
      assert s[|h|] == '\n';
    } else {
      assert s == h + ".";
    }
  }

  /** A non-empty source line that is all whitespace is truthy, so it is
      still shown, as an empty indented line. */
  lemma BlankSourceLineShowsEmpty(f: Frame)
    requires Truthy(f.line) && AllSpace(f.line.value)
    ensures FormatFrame(f) == Header(f) + "\n\t"
  {
    LStripAllSpace(f.line.value);
  }
}
