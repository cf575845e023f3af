# DragonOS text console ring buffer, in Dafny

This project models the text console (`textui`) of the DragonOS kernel,
file `kernel/src/libs/lib_ui/textui.rs`, in four modules.

**Value types (`textui_types.dfy`, module `TextuiTypes`)**
- `LineId` and `LineIndex` with their `check` methods.
- `FontColor` packing and unpacking.
- The coloured character cell, `TextuiCharChromatic`.
- The 8x16 glyph and its pixel test, `Font::is_frcolor`.

**The pixel writer (`textui_buf.dfy`, module `TextuiBuf`)**
- The framebuffer is a byte `array`. It is updated in place by `put_color_in_pixel` for 32, 24 and 16 bit depths.
- The start pixel of a text cell is computed as `get_start_index_by_lineid_lineindex` does, including its u32 conversions.
- `textui_refresh_character` is its own nested 16 x 8 loop with the running pixel counter `count`.
- The loop is proved to do exactly the 128 stores `GlyphWrites` lists, in order: glyph row by glyph row, each row left to right.
- Lemmas then place every glyph pixel and show that nothing outside the glyph changes.

**The window as a state machine (`textui_spec.dfy`, module `TextuiWindowSpec`)**
- A `Win` value holds the ring of `vline_sum` virtual lines, the write line `vline_operating`, the top line `top_vline` and the count `vlines_used`.
- It also holds a log of the cells drawn so far. Each entry records the physical row and column a cell is rendered at.
- Every window operation is a function from a window to the next window plus the Result the kernel returns.
- The properties of the console are lemmas about these functions.

**The window object (`textui_window.dfy`, module `TextuiConsole`)**
- The class `TextuiWindow` holds the fields of the kernel's struct.
- Its methods update those fields with the kernel's own loops:
  - the clearing loops;
  - the two loops of `textui_refresh_vlines`;
  - the tab loop;
  - the loop that builds the lines.
- Each method is proved to leave the object in exactly the state, and return exactly the Result, that the matching `TextuiWindowSpec` function gives.

**Parameters.** The count of physically visible rows is the framework's `actual_line` (A below). The kernel reads it from a global; here it is a constant of the window, with `1 <= A <= vline_sum`. At initialisation both `vline_sum` and A are `height / 16` (`InitialConfig`). The global "output to window" switch is the `isEnableWindow` argument.

**What the code does, as opposed to a natural reading of its design**
- *Bounds checks do not come before mutation.* `true_textui_putchar_window` stores the cell and bumps the column before `textui_refresh_characters` can return EINVAL. Past the end of the line, the column still moves and EINVAL is returned (`TruePutCharCases`).
- *Scrolling comes one newline earlier than "visible rows + 1".* A fresh window starts with one line in view. So A - 1 newlines fill the view and the A-th newline is the first to move the top line (`FreshScroll`).
- *Backspace at column 0 clears the line it leaves, not the line it moves to.* That line keeps its column (`BackspaceLineStart`).
- *Physical rows are not reduced modulo `vline_sum`.* A row is `vline - top`, plus A when negative. With A = `vline_sum`, as the kernel sets it up, this is the ring distance and always a visible row (`PhysicalRowOnScreen`). With fewer visible rows it is not (`PhysicalRowShortScreen`).
- *`vlines_used` is not bounded below.* A backspace at column 0 on a fresh window takes it to 0. The model keeps only its upper bound, `vlines_used <= A`, which every operation preserves.
- *`Font::is_frcolor` tests bit `8 - width`.* For width 0 that is a shift of a `u8` by 8. The model takes the shift amount modulo 8, as a build without overflow checks does, so column 0 tests bit 0 (`IsFrcolor`).

## Model

| member | source | states |
|---|---|---|
| TextuiTypes.CheckLineId | kernel/src/libs/lib_ui/textui.rs:137-139 | true exactly when 0 <= id < max |
| TextuiTypes.CheckLineIndex | kernel/src/libs/lib_ui/textui.rs:192-194 | true exactly when 0 <= index < chars_per_line |
| TextuiTypes.ColorNew | kernel/src/libs/lib_ui/textui.rs:248-251 | the packed colour never exceeds 0x00ffffff and gives back r, g and b as its red, green and blue bytes |
| TextuiTypes.ColorFromU32 | kernel/src/libs/lib_ui/textui.rs:254-257 | the colour has no bit above bit 23 and its three bytes are bytes 2, 1, 0 of the u32 |
| TextuiTypes.ColorNewArithmetic | kernel/src/libs/lib_ui/textui.rs:248-251 | packing equals r * 2^16 + g * 2^8 + b |
| TextuiTypes.ColorRoundTrip | kernel/src/libs/lib_ui/textui.rs:248-257 | From<u32> of a packed colour gives that colour back, whatever bits above bit 23 are added |
| TextuiTypes.IsFrcolor | kernel/src/libs/lib_ui/textui.rs:398-402 | a pixel is foreground exactly when bit 8 - width of its glyph row is set (bit 0 for width 0) |
| TextuiBuf.StoreLowBytes | kernel/src/libs/lib_ui/textui.rs:337-360 | stores the n low bytes of the colour from byte offset `at`, least significant first; every other byte is unchanged |
| TextuiBuf.PutColorInPixel | kernel/src/libs/lib_ui/textui.rs:337-366 | depth 32, 24 or 16 writes the 4, 3 or 2 low colour bytes at byte index * 4, * 3 or * 2 and changes no other byte; any other depth fails (the kernel's panic) and writes nothing |
| TextuiBuf.StartIndexLayout | kernel/src/libs/lib_ui/textui.rs:374-384 | without u32 wrap-around, the start pixel of text cell (line, column) is get_index_by_x_y(8 * column, 16 * line), that is W * (16 * line) + 8 * column |
| TextuiBuf.IndexByXYRowColumn | kernel/src/libs/lib_ui/textui.rs:370-372 | for x < W, the pixel index of (x, y) lies in row y at column x: dividing it by W gives y, the remainder is x |
| TextuiBuf.IndexOfNextLineBelow | kernel/src/libs/lib_ui/textui.rs:367-369 | for W > 0, the index of the next line is the pixel straight below: one row further down, same column |
| TextuiBuf.GlyphCharOf | kernel/src/libs/lib_ui/textui.rs:425 | the glyph drawn is that of the cell's character, or of ' ' for an empty cell |
| TextuiBuf.DrawGlyphPixel | kernel/src/libs/lib_ui/textui.rs:436-444 | one inner-loop step: pixel `count` gets the foreground colour when is_frcolor(i, j), the background colour otherwise; this is store 8 * i + j of the glyph |
| TextuiBuf.DrawGlyphRow | kernel/src/libs/lib_ui/textui.rs:434-447 | the inner loop does the 8 stores of glyph row i |
| TextuiBuf.RefreshCharacter | kernel/src/libs/lib_ui/textui.rs:418-450 | for a supported depth the buffer afterwards is exactly the old buffer with the 128 stores of GlyphWrites applied in loop order, all in bounds, using the glyph of the cell's character (' ' for an empty cell); for any other depth it fails with the buffer untouched |
| TextuiBuf.GlyphPixelsDistinct | kernel/src/libs/lib_ui/textui.rs:434-447 | in a frame at least 8 pixels wide the 128 pixels start + i * W + j of a glyph are pairwise different |
| TextuiBuf.ApplyWritesStored | kernel/src/libs/lib_ui/textui.rs:337-366 | after a sequence of stores, a pixel that no other store touches holds the bytes of its own colour |
| TextuiBuf.ApplyWritesUntouched | kernel/src/libs/lib_ui/textui.rs:337-366 | a byte that no store covers keeps its value |
| TextuiBuf.GlyphPixelColor | kernel/src/libs/lib_ui/textui.rs:418-450 | after rendering, pixel start + i * W + j holds the foreground colour exactly when is_frcolor(i, j), otherwise the background colour |
| TextuiBuf.GlyphOutsideUnchanged | kernel/src/libs/lib_ui/textui.rs:418-450 | rendering a glyph changes no byte outside its 16 x 8 pixels |
| TextuiConsole.NewVline | kernel/src/libs/lib_ui/textui.rs:534-549 | a line of char_num cells, each None / BLACK / BLACK, with column 0 |
| TextuiConsole.TextuiWindow.constructor | kernel/src/libs/lib_ui/textui.rs:595-613 | vline_sum blank lines, write line and top line 0, one line in view, nothing drawn |
| TextuiWindowSpec.Fresh | kernel/src/libs/lib_ui/textui.rs:595-613 | the fresh window is well formed and every line of it is blank |
| TextuiConsole.InitialConfig | kernel/src/libs/lib_ui/textui.rs:69-100 | the first window has floor(height / 16) virtual lines, all of them visible (the framework's actual_line is set from the same height, kernel/src/libs/lib_ui/textui.rs:941), and floor(width / 8) cells per line |
| TextuiWindowSpec.RefreshCharacters | kernel/src/libs/lib_ui/textui.rs:621-662 | Ok exactly when the line id is in [0, vline_sum) and start + count <= chars_per_line; on EINVAL nothing is drawn; otherwise the cells start .. start + count - 1 are drawn at row vline - top (+ A if negative); nothing but the log changes |
| TextuiConsole.TextuiWindow.RefreshCharacters | kernel/src/libs/lib_ui/textui.rs:621-662 | the method's drawing loop gives exactly the state and Result of TextuiWindowSpec.RefreshCharacters |
| TextuiWindowSpec.PhysicalRow | kernel/src/libs/lib_ui/textui.rs:636-642 | a line at or below the top line is drawn at row vline - top; with A = vline_sum every line of the ring is drawn on a row in [0, A) |
| TextuiWindowSpec.RefreshVline | kernel/src/libs/lib_ui/textui.rs:668-679 | Ok exactly for a line of the ring; then that whole line is drawn and nothing else changes |
| TextuiConsole.TextuiWindow.RefreshVline | kernel/src/libs/lib_ui/textui.rs:668-679 | equals TextuiWindowSpec.RefreshVline |
| TextuiWindowSpec.RefreshIds | kernel/src/libs/lib_ui/textui.rs:682-698 | drawing lines in turn succeeds exactly when every line id is in the ring, and then draws each of them whole, in order, changing nothing else |
| TextuiWindowSpec.RefreshVlines | kernel/src/libs/lib_ui/textui.rs:682-698 | only the drawing log changes; Ok exactly when every line id the two loops visit is in the ring, and then those lines are drawn whole, in the loops' order |
| TextuiWindowSpec.RefreshIdsAppend | kernel/src/libs/lib_ui/textui.rs:682-698 | drawing a + b is drawing a, then b unless a failed |
| TextuiWindowSpec.WalkIdsAt | kernel/src/libs/lib_ui/textui.rs:682-698 | the walk visits start .. min(vline_sum, start + count) - 1, then 0, 1, ... for the remainder |
| TextuiWindowSpec.RingWalk | kernel/src/libs/lib_ui/textui.rs:682-698 | for 0 <= start < vline_sum and 0 <= count <= vline_sum the walk is (start + k) mod vline_sum for k = 0 .. count - 1 |
| TextuiWindowSpec.RefreshVlinesRing | kernel/src/libs/lib_ui/textui.rs:682-698 | textui_refresh_vlines then succeeds and draws exactly those lines in ring order |
| TextuiConsole.TextuiWindow.RefreshVlines | kernel/src/libs/lib_ui/textui.rs:682-698 | the for loop followed by the while loop gives exactly TextuiWindowSpec.RefreshVlines |
| TextuiConsole.TextuiWindow.RefreshRun | kernel/src/libs/lib_ui/textui.rs:684-696 | one of the two loops: the n lines from `first` on, stopping at the first failure |
| TextuiWindowSpec.NextLine | kernel/src/libs/lib_ui/textui.rs:707-711 | from a line of the ring, the next line is a line of the ring: the one after, or 0 after the last (the top line moves the same way at lines 728-732) |
| TextuiWindowSpec.PrevLine | kernel/src/libs/lib_ui/textui.rs:877-887 | from a line of the ring, the previous line is a line of the ring: the one before, or vline_sum - 1 before 0 |
| TextuiWindowSpec.NewLine | kernel/src/libs/lib_ui/textui.rs:704-742 | always Ok; the write line moves to the next line of the ring, which becomes blank with column 0; no other line changes; with vlines_used == A the top line moves on and all A visible rows are drawn again in ring order, otherwise vlines_used grows by 1; 1 <= vlines_used <= A is preserved |
| TextuiConsole.TextuiWindow.NewLine | kernel/src/libs/lib_ui/textui.rs:704-742 | equals TextuiWindowSpec.NewLine |
| TextuiConsole.ClearChars | kernel/src/libs/lib_ui/textui.rs:716-722 | the first n cells found by get_mut become blank, the rest are kept |
| TextuiWindowSpec.TruePutChar | kernel/src/libs/lib_ui/textui.rs:748-782 | Ok exactly when the write column is below chars_per_line; keeps the window well formed and vlines_used <= A |
| TextuiWindowSpec.TruePutCharCases | kernel/src/libs/lib_ui/textui.rs:748-782 | past the end of the line only the column moves and EINVAL is returned; otherwise the cell gets the character and both colours, the column moves on and the cell is drawn; a new line follows exactly when the old column was chars_per_line - 1 |
| TextuiConsole.TextuiWindow.TruePutChar | kernel/src/libs/lib_ui/textui.rs:748-782 | equals TextuiWindowSpec.TruePutChar |
| TextuiWindowSpec.PutSpaces | kernel/src/libs/lib_ui/textui.rs:823-836 | n spaces through true_textui_putchar_window keep the window well formed and vlines_used <= A |
| TextuiConsole.TextuiWindow.PutTab | kernel/src/libs/lib_ui/textui.rs:829-833 | the space_to_print loop for n spaces is exactly n calls of TruePutChar with ' ', stopping at the first failure |
| TextuiConsole.TextuiWindow.PutSpace | kernel/src/libs/lib_ui/textui.rs:831-832 | one space of the tab leaves n - 1 spaces to go, or ends the tab with its error |
| TextuiWindowSpec.TabStop | kernel/src/libs/lib_ui/textui.rs:823-836 | a tab whose stop is before the last column writes spaces with both colours up to the next multiple of 8, leaves the column there and changes no other cell or line pointer |
| TextuiWindowSpec.PutSpacesFill | kernel/src/libs/lib_ui/textui.rs:823-836 | spaces that fit fill the cells from the column on and change nothing else |
| TextuiWindowSpec.Backspace | kernel/src/libs/lib_ui/textui.rs:838-893 | backspace keeps the window well formed and vlines_used <= A |
| TextuiWindowSpec.BackspaceInLine | kernel/src/libs/lib_ui/textui.rs:838-860 | after column 0: the column moves back one; that cell becomes ' ' with the new background and its old foreground and is drawn; write line, top line and vlines_used stay; past the end of the line only the column moves and EINVAL is returned |
| TextuiWindowSpec.BackspaceLineStart | kernel/src/libs/lib_ui/textui.rs:861-892 | at column 0: the current line is blanked, the write line moves back one (0 wraps to vline_sum - 1), the top line moves back one only when vlines_used > A, vlines_used drops by 1 and the A visible rows are drawn again; always Ok |
| TextuiConsole.TextuiWindow.Backspace | kernel/src/libs/lib_ui/textui.rs:838-893 | equals TextuiWindowSpec.Backspace |
| TextuiConsole.TextuiWindow.BackspaceInLine | kernel/src/libs/lib_ui/textui.rs:838-860 | equals TextuiWindowSpec.BackspaceInLine |
| TextuiConsole.TextuiWindow.BackspaceLineStart | kernel/src/libs/lib_ui/textui.rs:861-892 | equals TextuiWindowSpec.BackspaceLineStart |
| TextuiWindowSpec.NewLineBackspace | kernel/src/libs/lib_ui/textui.rs:704-742 | when the view is not full, a backspace at column 0 right after a newline restores the write line, the top line and vlines_used |
| TextuiWindowSpec.ScrollBackspace | kernel/src/libs/lib_ui/textui.rs:861-892 | when the newline scrolled, the backspace goes back to the old write line but keeps the scrolled top line, with vlines_used = A - 1 |
| TextuiWindowSpec.PutChar | kernel/src/libs/lib_ui/textui.rs:789-907 | '\0', '\r', a non-chromatic window, and output disabled all leave the window unchanged with Ok; every path keeps the window well formed and vlines_used <= A |
| TextuiConsole.TextuiWindow.PutChar | kernel/src/libs/lib_ui/textui.rs:789-907 | the dispatcher gives exactly TextuiWindowSpec.PutChar |
| TextuiWindowSpec.PutCharForcedNewline | kernel/src/libs/lib_ui/textui.rs:894-903 | a printable character when the write column is outside [0, chars_per_line) first gets a new line: it goes into column 0 of the next, blank line, the column becomes 1, and the line it left is unchanged |
| TextuiWindowSpec.PutCharInLine | kernel/src/libs/lib_ui/textui.rs:894-903 | a printable character before the last column is stored at the column, with both colours, the column moves on one and no other line or pointer changes |
| TextuiWindowSpec.PutCharLastColumn | kernel/src/libs/lib_ui/textui.rs:894-903 | a printable character at column chars_per_line - 1 is stored there and followed by a new, blank write line |
| TextuiWindowSpec.PutStr | kernel/src/libs/lib_ui/textui.rs:1033-1049 | writing the characters in turn, stopping at the first Err, keeps the window well formed and vlines_used <= A |
| TextuiConsole.TextuiWindow.PutStr | kernel/src/libs/lib_ui/textui.rs:1033-1049 | the loop over the characters gives exactly TextuiWindowSpec.PutStr |
| TextuiWindowSpec.PutStrAppend | kernel/src/libs/lib_ui/textui.rs:1033-1049 | writing s + t is writing s, then t unless s failed |
| TextuiWindowSpec.PutStrStopsAtError | kernel/src/libs/lib_ui/textui.rs:1033-1049 | once a prefix fails, what follows it is never written |
| TextuiWindowSpec.PutStrNoOutput | kernel/src/libs/lib_ui/textui.rs:1033-1049 | with output disabled, or on a non-chromatic window, a whole string changes nothing |
| TextuiWindowSpec.PutStrFillsLine | kernel/src/libs/lib_ui/textui.rs:748-782 | printable characters that end before the last column fill the cells from the column on, with both colours, and leave the column just after them on the same line; nothing else changes |
| TextuiWindowSpec.PutStrWrapsLine | kernel/src/libs/lib_ui/textui.rs:748-782 | a full line of chars_per_line printable characters from column 0 stays on its line, and the last one moves the write line on to a blank line |
| TextuiWindowSpec.NewlinesScroll | kernel/src/libs/lib_ui/textui.rs:704-742 | k newlines from a window with 1 <= vlines_used <= A always succeed: the write line moves on k (mod vline_sum), vlines_used becomes min(used + k, A), and the top line moves on once per newline after the view is full |
| TextuiWindowSpec.NewlineAfter | kernel/src/libs/lib_ui/textui.rs:704-742 | one more newline keeps that closed form |
| TextuiWindowSpec.FreshScroll | kernel/src/libs/lib_ui/textui.rs:704-742 | from a fresh window with A = vline_sum, A - 1 newlines fill the view with the top still at 0, and the A-th newline is the first to move the top line |
| TextuiWindowSpec.PhysicalRowOnScreen | kernel/src/libs/lib_ui/textui.rs:637-642 | with A = vline_sum every line is drawn on a visible row, at its ring distance (vline - top) mod vline_sum from the top line |
| TextuiWindowSpec.PhysicalRowShortScreen | kernel/src/libs/lib_ui/textui.rs:637-642 | with A < vline_sum, line 0 after a top line at the end of the ring is drawn at row A - vline_sum + 1: this is not row 1, and below 0 when A < vline_sum - 1 |
| TextuiWindowSpec.RingNeighbours | kernel/src/libs/lib_ui/textui.rs:707-710 | the next and previous lines are x + 1 and x - 1 modulo vline_sum, and each undoes the other |
| TextuiWindowSpec.CellRenders | kernel/src/libs/lib_ui/textui.rs:644-659 | one log entry per drawn cell, all on the line's physical row |
| TextuiWindowSpec.LinesRenders | kernel/src/libs/lib_ui/textui.rs:668-698 | with A = vline_sum all rows drawn are visible rows |

## Left out

- Serial mirroring (`send_to_default_serial8250_port`) is device output and not modelled.
- Locks, the `static mut` framework singleton, `TEXTUI_IS_INIT` and the atomics are left out. They are concurrency and global state. The visible-row count is a constant of the window, and the enable flag is an argument.
- The init-once panic of `textui_framwork_init` is not modelled. The window it creates is (`InitialConfig`).
- Framework registration and callbacks (`scm_register`, `ScmUiFramework`, the buffer switch in `change`) work on screen-manager types that are not part of this model.
- `TextuiBuf::new` chooses between the device buffer and the double buffer; the model's target is a plain byte array.
- The framebuffer width W is a parameter: the kernel reads it from the framework's metadata. In the window layer, drawing only records (row, column, cell). The renderer that turns one such entry into pixels is `TextuiBuf.RefreshCharacter`.
- The glyph table `FONT_8x16` is not part of this model. `Font::get_font` is the parameter `glyphOf`.
- `no_init_textui_render_chromatic` and `no_init_textui_putchar_window` (the path before initialisation) do raw address arithmetic or live elsewhere. `textui_putstr` is modelled only for an initialised console.
- The monochrome `_Normal` line kind is `todo!()` in the kernel. The window methods that would reach it require a chromatic window. `TextuiWindowSpec.PutChar` models the dispatcher's early return for a non-chromatic window.
- `WindowId` is an atomic counter; the model has no window identity.
- `GlyphMapping` is a trivial wrapper.
- i32 arithmetic is modelled as unbounded integers. `LineId`/`LineIndex` `+` and `-` are plain integer operations. No counter of the window can overflow for the inputs considered. The u32 conversions of `get_start_index_by_lineid_lineindex` are modelled with explicit wrap-around.
- The window requires `1 <= A <= vline_sum` and `chars_per_line >= 0`. Windows with no lines are not modelled. The kernel does build them: `impl Default for TextuiWindow` (kernel/src/libs/lib_ui/textui.rs:909-921) has `vline_sum` 0 and no lines, and `textui_framwork_init` (kernel/src/libs/lib_ui/textui.rs:76-84) makes one when the framebuffer is less than 16 pixels high. On such a window the first `textui_new_line` or `true_textui_putchar_window` indexes an empty `Vec` and panics. `InitialConfig` requires a height of at least 16 for this reason. A window with more visible rows than lines would also index outside the ring.
- IsFrcolor, StartIndex: model a build without overflow checks. `1u8 << 8` at kernel/src/libs/lib_ui/textui.rs:400 and the u32 products at kernel/src/libs/lib_ui/textui.rs:378, 381 (which wrap for a negative physical row) panic in a build with overflow checks.
- `TextuiWindowSpec.TruePutChar`, `TextuiWindowSpec.PutSpaces`, `TextuiWindowSpec.Backspace`, `TextuiWindowSpec.PutChar` and `TextuiWindowSpec.PutStr`: their own contracts state only well-formedness, `vlines_used <= A` and visibility of what is drawn. The exact new state is stated by the case lemmas (`TruePutCharCases`, `BackspaceInLine`, `BackspaceLineStart`, `TabStop`, `PutCharInLine`, `PutCharLastColumn`, `PutCharForcedNewline`, `PutStrFillsLine`, `PutStrWrapsLine`, `NewlinesScroll`) and by the methods, which equal these functions.
- `put_color_in_pixel` stores the colour through raw pointers; the model assumes the pixel lies in the buffer. The kernel does not check this.
