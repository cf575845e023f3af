/** The console window as the kernel keeps it: an object whose methods
    update its fields in place. Each method is proved to take the window
    from a state to exactly the state, and return exactly the Result, that
    the corresponding function of TextuiWindowSpec gives. */
module TextuiConsole {
  import opened TextuiTypes
  import opened TextuiWindowSpec
  import TextuiBuf

  /** TextuiVlineChromatic::new: a line of `charNum` blank cells. */
  method NewVline(charNum: nat) returns (l: Vline)
    ensures l == BlankVline(charNum)
    ensures |l.chars| == charNum && l.index == 0
    ensures forall k :: 0 <= k < charNum ==> l.chars[k] == Cell(None, BLACK, BLACK)
  {
    var chars: seq<Cell> := [];
    var i := 0;
    while i < charNum
      invariant 0 <= i <= charNum
      invariant chars == seq(i, _ => BLANK_CELL)
    {
      chars := chars + [Cell(None, BLACK, BLACK)];
      i := i + 1;
    }
    l := Vline(chars, 0);
  }

  /** The loop `for i in 0..n` that blanks each cell `get_mut(i)` finds:
      the first n cells become blank, the others are kept. */
  method ClearChars(chars: seq<Cell>, n: int) returns (r: seq<Cell>)
    ensures r == ClearedChars(chars, n)
    ensures |r| == |chars|
    ensures forall k :: 0 <= k < |chars| ==> r[k] == if k < n then BLANK_CELL else chars[k]
  {
    r := chars;
    var i := 0;
    while i < n
      invariant 0 <= i <= Max0(n)
      invariant |r| == |chars|
      invariant forall k :: 0 <= k < |chars| ==> r[k] == if k < i then BLANK_CELL else chars[k]
    {
      if 0 <= i < |r| {
        r := r[i := Cell(None, BLACK, BLACK)];
      }
      i := i + 1;
    }
  }

  /** The window textui_framwork_init creates for a framebuffer of the
      given size: height / 16 virtual lines, all of them visible rows, and
      width / 8 cells per line. */
  function InitialConfig(width: nat, height: nat): (cfg: Config)
    requires height >= TextuiBuf.TEXTUI_CHAR_HEIGHT
    ensures ValidConfig(cfg) && cfg.chromatic
    ensures cfg.vlineSum == cfg.actualLineSum
    ensures cfg.vlineSum * TextuiBuf.TEXTUI_CHAR_HEIGHT <= height < (cfg.vlineSum + 1) * TextuiBuf.TEXTUI_CHAR_HEIGHT
    ensures cfg.charsPerLine * TextuiBuf.TEXTUI_CHAR_WIDTH <= width < (cfg.charsPerLine + 1) * TextuiBuf.TEXTUI_CHAR_WIDTH
  {
    Config(height / TextuiBuf.TEXTUI_CHAR_HEIGHT, width / TextuiBuf.TEXTUI_CHAR_WIDTH, height / TextuiBuf.TEXTUI_CHAR_HEIGHT, true)
  }

  class TextuiWindow {
    /** vline_sum */
    const vlineSum: int
    /** chars_per_line */
    const charsPerLine: int
    /** The framework's actual_line: how many rows the framebuffer shows. */
    const actualLineSum: int
    /** WindowFlag::TEXTUI_CHROMATIC */
    const chromatic: bool

    var vlinesUsed: int
    var topVline: LineId
    var vlines: seq<Vline>
    var vlineOperating: LineId
    /** The cells drawn so far, in drawing order. */
    ghost var drawn: seq<Render>

    function Cfg(): Config
    {
      Config(vlineSum, charsPerLine, actualLineSum, chromatic)
    }

    ghost function State(): Win
      reads this
    {
      Win(vlines, vlineOperating, topVline, vlinesUsed, drawn)
    }

    ghost predicate Valid()
      reads this
    {
      WellFormed(Cfg(), State())
    }

    /** TextuiWindow::new */
    constructor (chromaticFlag: bool, vlinesNum: int, charsNum: int, actualLine: int)
      requires ValidConfig(Config(vlinesNum, charsNum, actualLine, chromaticFlag))
      ensures Cfg() == Config(vlinesNum, charsNum, actualLine, chromaticFlag)
      ensures State() == Fresh(Cfg())
      ensures Valid()
    {
      var initial: seq<Vline> := [];
      var i := 0;
      while i < vlinesNum
        invariant 0 <= i <= vlinesNum
        invariant initial == seq(i, _ => BlankVline(charsNum))
      {
        var vline := NewVline(charsNum);
        initial := initial + [vline];
        i := i + 1;
      }
      chromatic := chromaticFlag;
      vlineSum := vlinesNum;
      vlinesUsed := 1;
      topVline := 0;
      vlines := initial;
      vlineOperating := 0;
      charsPerLine := charsNum;
      actualLineSum := actualLine;
      drawn := [];
    }

    /** textui_refresh_characters */
    method RefreshCharacters(vlineId: LineId, start: LineIndex, count: int) returns (r: Outcome)
      requires Valid() && 0 <= start
      modifies this
      ensures Step(State(), r) == TextuiWindowSpec.RefreshCharacters(Cfg(), old(State()), vlineId, start, count)
      ensures Valid()
    {
      if !CheckLineId(vlineId, vlineSum) || start + count > charsPerLine {
        return Err(EINVAL);
      }
      var actualLineId := vlineId - topVline;
      if actualLineId < 0 {
        actualLineId := actualLineId + actualLineSum;
      }
      if chromatic {
        var vline := vlines[vlineId];
        assert |vline.chars| == charsPerLine;
        ghost var log := drawn;
        var i := 0;
        var index := start;
        while i < count
          invariant 0 <= i <= Max0(count) && (i == 0 || start + i <= |vline.chars|)
          invariant index == start + i
          invariant log == drawn + CellRenders(Cfg(), vlines, topVline, vlineId, start, i)
        {
          log := log + [Render(actualLineId, index, vline.chars[index])];
          index := index + 1;
          i := i + 1;
        }
        drawn := log;
      }
      r := Ok;
    }

    /** textui_refresh_vline, for a chromatic window (the other kind is
        not implemented by the kernel). */
    method RefreshVline(vlineId: LineId) returns (r: Outcome)
      requires Valid() && chromatic
      modifies this
      ensures Step(State(), r) == TextuiWindowSpec.RefreshVline(Cfg(), old(State()), vlineId)
      ensures Valid()
    {
      r := RefreshCharacters(vlineId, 0, charsPerLine);
    }

    /** textui_refresh_vlines: the `for` loop over the lines start ..
        min(vline_sum, start + count) - 1, then the `while` loop over as
        many lines from 0 on as the first fell short of count. */
    method RefreshVlines(start: LineId, count: int) returns (r: Outcome)
      requires Valid() && chromatic
      modifies this
      ensures Step(State(), r) == TextuiWindowSpec.RefreshVlines(Cfg(), old(State()), start, count)
      ensures Valid()
    {
      ghost var w0 := State();
      var forEnd := Min(vlineSum, start + count);
      ghost var first := Range(start, forEnd);
      ghost var rest := Range(0, count - |first|);
      assert WalkIds(start, count, vlineSum) == first + rest;
      RefreshIdsAppend(Cfg(), w0, first, rest);
      assert start + (forEnd - start) == forEnd;
      r := RefreshRun(start, forEnd - start);
      ghost var s1 := RefreshIds(Cfg(), w0, first);
      assert Step(State(), r) == s1;
      if r.Err? {
        return;
      }
      var refreshCount := count - Max0(forEnd - start);
      assert 0 + refreshCount == count - |first|;
      r := RefreshRun(0, refreshCount);
      assert Step(State(), r) == RefreshIds(Cfg(), s1.win, rest);
    }

    /** Draw the n lines from `first` on, stopping at the first failure
        (each of the two loops of textui_refresh_vlines). */
    method RefreshRun(first: LineId, n: int) returns (r: Outcome)
      requires Valid() && chromatic
      modifies this
      ensures Step(State(), r) == RefreshIds(Cfg(), old(State()), Range(first, first + n))
      ensures Valid()
    {
      ghost var ids := Range(first, first + n);
      r := Ok;
      var i := 0;
      while i < n
        invariant Valid() && 0 <= i <= Max0(n) && r == Ok
        invariant RefreshIds(Cfg(), State(), ids[i..]) == RefreshIds(Cfg(), old(State()), ids)
      {
        assert ids[i..][0] == first + i && ids[i..][1..] == ids[i + 1..];
        r := RefreshVline(first + i);
        if r.Err? {
          return;
        }
        i := i + 1;
      }
    }

    /** textui_new_line */
    method NewLine() returns (r: Outcome)
      requires Valid() && chromatic
      modifies this
      ensures Step(State(), r) == TextuiWindowSpec.NewLine(Cfg(), old(State()))
      ensures Valid()
    {
      vlineOperating := vlineOperating + 1;
      if !CheckLineId(vlineOperating, vlineSum) {
        vlineOperating := 0;
      }
      ghost var w0 := old(State());
      assert vlineOperating == TextuiWindowSpec.NextLine(Cfg(), w0.vlineOperating);
      var cleared := ClearChars(vlines[vlineOperating].chars, charsPerLine);
      vlines := vlines[vlineOperating := Vline(cleared, 0)];
      ghost var w1 := w0.(vlineOperating := vlineOperating, vlines := vlines);
      assert State() == w1;
      if vlinesUsed == actualLineSum {
        topVline := topVline + 1;
        if !CheckLineId(topVline, vlineSum) {
          topVline := 0;
        }
        assert State() == w1.(topVline := TextuiWindowSpec.NextLine(Cfg(), w0.topVline));
        r := RefreshVlines(topVline, actualLineSum);
      } else {
        vlinesUsed := vlinesUsed + 1;
        r := Ok;
      }
    }

    /** true_textui_putchar_window, for a chromatic window. */
    method TruePutChar(ch: char, frcolor: FontColor, bkcolor: FontColor) returns (r: Outcome)
      requires Valid() && chromatic
      modifies this
      ensures Step(State(), r) == TextuiWindowSpec.TruePutChar(Cfg(), old(State()), ch, frcolor, bkcolor)
      ensures Valid()
    {
      var vline := vlines[vlineOperating];
      var index := vline.index;
      var chars := vline.chars;
      if 0 <= index < |chars| {
        chars := chars[index := Cell(Some(ch), frcolor, bkcolor)];
      }
      vlines := vlines[vlineOperating := Vline(chars, index + 1)];
      r := RefreshCharacters(vlineOperating, index, 1);
      if r.Err? {
        return;
      }
      if !CheckLineIndex(index, charsPerLine - 1) {
        r := NewLine();
      }
    }

    /** The `space_to_print` loop of the tab branch of textui_putchar_window:
        that many spaces through true_textui_putchar_window, stopping at the
        first failure. */
    method PutTab(spaceCount: nat, frcolor: FontColor, bkcolor: FontColor) returns (r: Outcome)
      requires Valid() && chromatic
      modifies this
      ensures Step(State(), r) == TextuiWindowSpec.PutSpaces(Cfg(), old(State()), spaceCount, frcolor, bkcolor)
      ensures Valid()
    {
      r := Ok;
      var spaceToPrint := spaceCount;
      while spaceToPrint > 0
        invariant Valid() && r == Ok
        invariant TextuiWindowSpec.PutSpaces(Cfg(), State(), spaceToPrint, frcolor, bkcolor) ==
                  TextuiWindowSpec.PutSpaces(Cfg(), old(State()), spaceCount, frcolor, bkcolor)
      {
        r := PutSpace(spaceToPrint, frcolor, bkcolor);
        if r.Err? {
          return;
        }
        spaceToPrint := spaceToPrint - 1;
      }
    }

    /** One space of a tab: TruePutChar(' '), which leaves `n - 1` spaces to go
        when it succeeds. */
    method PutSpace(n: nat, frcolor: FontColor, bkcolor: FontColor) returns (r: Outcome)
      requires Valid() && chromatic && n > 0
      modifies this
      ensures Valid()
      ensures r.Err? ==> Step(State(), r) == TextuiWindowSpec.PutSpaces(Cfg(), old(State()), n, frcolor, bkcolor)
      ensures r.Ok? ==> TextuiWindowSpec.PutSpaces(Cfg(), State(), n - 1, frcolor, bkcolor) ==
                        TextuiWindowSpec.PutSpaces(Cfg(), old(State()), n, frcolor, bkcolor)
    {
      r := TruePutChar(' ', frcolor, bkcolor);
    }

    /** The backspace branch of textui_putchar_window: the column moves
        back one, then BackspaceInLine or BackspaceLineStart. */
    method Backspace(bkcolor: FontColor) returns (r: Outcome)
      requires Valid() && chromatic
      modifies this
      ensures Step(State(), r) == TextuiWindowSpec.Backspace(Cfg(), old(State()), bkcolor)
      ensures Valid()
    {
      if vlines[vlineOperating].index - 1 >= 0 {
        r := BackspaceInLine(bkcolor);
      } else {
        r := BackspaceLineStart();
      }
    }

    /** Backspace after column 0: erase the cell left of the column. */
    method BackspaceInLine(bkcolor: FontColor) returns (r: Outcome)
      requires Valid() && chromatic && vlines[vlineOperating].index >= 1
      modifies this
      ensures Step(State(), r) == TextuiWindowSpec.BackspaceInLine(Cfg(), old(State()), bkcolor)
      ensures Valid()
    {
      var vline := vlines[vlineOperating];
      var tmp := vline.index - 1;
      var chars := vline.chars;
      if tmp < |chars| {
        chars := chars[tmp := chars[tmp].(c := Some(' '), bkcolor := bkcolor)];
      }
      vlines := vlines[vlineOperating := Vline(chars, tmp)];
      r := RefreshCharacters(vlineOperating, tmp, 1);
    }

    /** Backspace at column 0: blank the line and go back to the previous
        one. */
    method BackspaceLineStart() returns (r: Outcome)
      requires Valid() && chromatic && vlines[vlineOperating].index == 0
      modifies this
      ensures Step(State(), r) == TextuiWindowSpec.BackspaceLineStart(Cfg(), old(State()))
      ensures Valid()
    {
      var cleared := ClearChars(vlines[vlineOperating].chars, charsPerLine);
      vlines := vlines[vlineOperating := Vline(cleared, 0)];
      vlineOperating := vlineOperating - 1;
      if vlineOperating < 0 {
        vlineOperating := vlineSum - 1;
      }
      if vlinesUsed > actualLineSum {
        topVline := topVline - 1;
        if topVline < 0 {
          topVline := vlineSum - 1;
        }
      }
      vlinesUsed := vlinesUsed - 1;
      ghost var w0 := old(State());
      assert State() == w0.(vlines := w0.vlines[w0.vlineOperating := Vline(ClearedChars(w0.vlines[w0.vlineOperating].chars, charsPerLine), 0)],
                            vlineOperating := PrevLine(Cfg(), w0.vlineOperating),
                            topVline := if w0.vlinesUsed > actualLineSum then PrevLine(Cfg(), w0.topVline) else w0.topVline,
                            vlinesUsed := w0.vlinesUsed - 1);
      r := RefreshVlines(topVline, actualLineSum);
    }

    /** textui_putchar_window */
    method PutChar(ch: char, frcolor: FontColor, bkcolor: FontColor, isEnableWindow: bool) returns (r: Outcome)
      requires Valid()
      modifies this
      ensures Step(State(), r) == TextuiWindowSpec.PutChar(Cfg(), old(State()), ch, frcolor, bkcolor, isEnableWindow)
      ensures Valid()
    {
      r := Ok;
      if ch == NUL || ch == CR || !chromatic {
        return;
      }
      if ch == LF {
        if isEnableWindow {
          r := NewLine();
        }
      } else if ch == TAB {
        if isEnableWindow {
          var spaceToPrint := 8 - vlines[vlineOperating].index % 8;
          r := PutTab(spaceToPrint, frcolor, bkcolor);
        }
      } else if ch == BACKSPACE {
        if isEnableWindow {
          r := Backspace(bkcolor);
        }
      } else if isEnableWindow {
        if !CheckLineIndex(vlines[vlineOperating].index, charsPerLine) {
          // the kernel propagates this Result with `?`; NewLine is always Ok
          var lineStarted := NewLine();
        }
        r := TruePutChar(ch, frcolor, bkcolor);
      }
    }

    /** textui_putstr on an initialised console: the characters in turn,
        stopping at the first Err. */
    method PutStr(s: string, frcolor: FontColor, bkcolor: FontColor, isEnableWindow: bool) returns (r: Outcome)
      requires Valid()
      modifies this
      ensures Step(State(), r) == TextuiWindowSpec.PutStr(Cfg(), old(State()), s, frcolor, bkcolor, isEnableWindow)
      ensures Valid()
    {
      r := Ok;
      var i := 0;
      while i < |s|
        invariant Valid() && 0 <= i <= |s| && r == Ok
        invariant TextuiWindowSpec.PutStr(Cfg(), State(), s[i..], frcolor, bkcolor, isEnableWindow) ==
                  TextuiWindowSpec.PutStr(Cfg(), old(State()), s, frcolor, bkcolor, isEnableWindow)
      {
        assert s[i..][0] == s[i] && s[i..][1..] == s[i + 1..];
        r := PutChar(s[i], frcolor, bkcolor, isEnableWindow);
        if r.Err? {
          return;
        }
        i := i + 1;
      }
    }
  }
}
