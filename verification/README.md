# QR code tool: colour choice, recolour pass, scan de-duplication, display truncation

A Dafny model of the small amount of original logic in the QR code desktop
tool (`qr_code_tool.py`). The rest of that program drives a GUI toolkit, a
camera, and libraries that encode, decode and composite images.

- **Palette** (`palette.dfy`). When a QR code is blended into a background
  image, `generate_qr_code` does three things. It takes the floor mean of each
  RGB channel over the background pixels. It classifies that mean as dark or
  light by BT.601 luma, written here as the integer test
  `299 r + 587 g + 114 b < 128000`. This differs from the source's
  floating-point test only at a luma of exactly 128000. Then it picks a contrasting foreground
  colour one channel at a time:
  - on a dark background, `+80`, or `-40` if `+80` would reach 255;
  - on a light background, `-80`, or `+40` if `-80` would reach 0;
  - each result is then clamped to [0, 255].
- **Recolour** (`recolour.dfy`). This is the nested loop over the rendered QR
  image. A pixel whose three colour channels all exceed 200 becomes
  transparent white. Every other pixel becomes the foreground colour, fully
  opaque. The loop reads and writes pixels in place. A visit count per pixel
  is returned alongside the image, so the model can state that each pixel is
  visited exactly once. This matters because the pass is not idempotent: on
  some dark backgrounds the chosen colour passes the white test itself.
- **ScanHistory** (`history.dfy`). Each opening of the scan menu creates a
  fresh list of decoded strings, seeded with `"link"`. Either menu button
  closes the menu first, so one list serves exactly one image upload or one
  camera session, and every session starts from the seed. A decoded string
  is appended to the list, and the user is asked whether to open it, only when
  it is non-empty and differs from the last entry. The model proves an
  independent description of the whole history: it is the seed followed by
  all non-empty decoded strings, with each run of equal neighbours collapsed
  to one entry. Frame boundaries make no difference.
- **Display** (`display.dfy`). Two places cut a long string to a prefix and
  add `"..."`: the content preview keeps 100 characters and the URL display
  keeps 50. The source writes these two in different shapes, and the model
  proves the two shapes agree.

`colour.dfy` holds the shared data: 8-bit channels, RGB and RGBA pixels, the
luma test, Python's `min` and `max`, and an `Option` type. An image is a sequence of columns indexed
`[x][y]`, following the source's loop order (`x` over the width outside, `y`
over the height inside). The background is a plain list of RGB pixels, as
`getdata()` returns it.

Facts the model brings out:
- Wrap-around can reverse the intended direction. The dark average
  (0, 175, 175) gets the darker foreground (80, 135, 135). The light average
  (255, 80, 80) gets the lighter foreground (175, 120, 120).
- A first scan whose content is exactly `"link"` is never recorded or
  prompted, because of the seed.
- A string of exactly `limit + 3` characters that ends in `"..."` is its own
  truncation.

## Model

| member | source | states |
|---|---|---|
| Colour.Luma1000 | qr_code_tool.py:63 | 1000 × the BT.601 brightness of a colour lies in [0, 255000] and is 0 only for black |
| Colour.IsDark | qr_code_tool.py:63-68 | the integer form of `brightness < 128`: a colour with every channel below 128 is dark and one with every channel at least 128 is light |
| Palette.Sum | qr_code_tool.py:57-59 | a channel sum over n pixels lies in [0, 255·n] |
| Palette.SumBetween | qr_code_tool.py:57-59 | if every pixel's channel lies in [lo, hi], the sum lies in [n·lo, n·hi] |
| Palette.Mean | qr_code_tool.py:57-59 | the channel average m is the floor of the mean (m·n ≤ sum < (m+1)·n) and lies between the channel's lowest and highest value |
| Palette.MeanOfUniform | qr_code_tool.py:57-59 | when every pixel has value v in a channel, that channel's average is v |
| Palette.Average | qr_code_tool.py:54-59 | there is no average exactly when the pixel list is empty (the source's division by zero); otherwise every channel is that channel's floor mean, as Palette.Mean states it |
| Palette.ChooseChannel | qr_code_tool.py:68-77 | the chosen channel is in [0, 255], so the clamps never bind. Dark branch: ≤ 254; it is v+80 iff v < 175 and v−40 iff v ≥ 175. Light branch: ≥ 1; it is v−80 iff v > 80 and v+40 iff v ≤ 80. It always differs from v by exactly 40 or 80 |
| Palette.ChooseForeground | qr_code_tool.py:68-77 | with one dark/light decision for the whole average, each channel follows the clamp-free rule on its own average value: on a dark average v+80 when v < 175, else v−40; on a light average v−80 when v > 80, else v+40 |
| Palette.ForegroundContrast | qr_code_tool.py:68-77 | the foreground never equals the average. Each channel moves by +80/−40 on a dark background and stays ≤ 254. Each channel moves by −80/+40 on a light background and stays within [1, 175] |
| Palette.BranchSelection | qr_code_tool.py:63-77 | the dark-branch offsets are used iff 299·r + 587·g + 114·b < 128000 on the averages |
| Palette.BlackGivesGrey80 | qr_code_tool.py:68-72 | an average of (0, 0, 0) yields (80, 80, 80) |
| Palette.WhiteGivesGrey175 | qr_code_tool.py:73-77 | an average of (255, 255, 255) yields (175, 175, 175) |
| Palette.LumaBoundaryIsLight | qr_code_tool.py:63-77 | at luma exactly 128000 the integer test takes the light branch: (128, 128, 128) gets (48, 48, 48) |
| Palette.LumaShiftWithoutWrap | qr_code_tool.py:63-77 | with no wrap-around, the foreground's luma is exactly 80 above a dark average's and exactly 80 below a light average's |
| Palette.WrapCanReverseDirection | qr_code_tool.py:63-77 | dark (0, 175, 175) gets the darker (80, 135, 135); light (255, 80, 80) gets the lighter (175, 120, 120) |
| Palette.PlanForeground | qr_code_tool.py:53-77 | background analysis fails exactly on an empty background; otherwise every foreground channel is 40 or 80 away from the average channel |
| Palette.UniformBackground | qr_code_tool.py:53-77 | a single-colour background gets the same foreground as that colour itself |
| Recolour.IsWhite | qr_code_tool.py:94 | the white test holds iff the smallest of R, G, B exceeds 200; a white pixel's colour is never dark |
| Recolour.RecolourPixel | qr_code_tool.py:94-97 | alpha is 0 iff all of R, G, B exceed 200. Alpha is always 0 or 255. A transparent pixel is white. An opaque pixel has the foreground colour |
| Recolour.RecolourPass | qr_code_tool.py:91-97 | the output keeps the width × height shape. Every output pixel is the one-visit recolouring of the same input pixel. Every pixel is visited exactly once |
| Recolour.BuildOverlay | qr_code_tool.py:53-97 | fails iff the background is empty. Otherwise the shape is kept, and each pixel is exactly (255, 255, 255, 0) when the QR pixel is white and exactly the foreground chosen for the background's average at alpha 255 otherwise |
| Recolour.SecondVisitWouldErase | qr_code_tool.py:91-97 | on the average (125, 125, 125) a black module recoloured twice would become transparent, so the single visit matters |
| Recolour.LightForegroundIsStable | qr_code_tool.py:94-97 | on a light background, recolouring a pixel twice gives the same result as once |
| Recolour.RenderModule | qr_code_tool.py:44 | a rendered module is opaque, and it passes the white test iff it is a light module |
| Recolour.RenderedModulesSeparate | qr_code_tool.py:91-97 | a rendered black module becomes the opaque foreground and a rendered white module becomes transparent |
| ScanHistory.Accepts | qr_code_tool.py:237 | no contract; defines the guard `qr_data and qr_data != data[-1]` used by both scans (also :270) |
| ScanHistory.AcceptedAppendKeepsInvariant | qr_code_tool.py:237-238 | an accepted string is non-empty, and appending it keeps the history free of repeated neighbours |
| ScanHistory.Offer | qr_code_tool.py:237-238 | a decoded string is appended, with one prompt, iff it is non-empty and differs from the last entry; otherwise nothing changes |
| ScanHistory.ProcessResults | qr_code_tool.py:236-241 | processing one image's results only appends, and the appended entries are exactly the prompts; no prompt is the empty string |
| ScanHistory.ProcessFrames | qr_code_tool.py:259-277 | a camera session only appends to the history, and the appended entries are exactly the prompts |
| ScanHistory.HistoryInvariant | qr_code_tool.py:236-241 | the history stays a prefix-extension of itself and never gets repeated neighbours or empty entries |
| ScanHistory.PromptsAreDecoded | qr_code_tool.py:236-241 | every prompt is one of the decoded strings |
| ScanHistory.ProcessResultsAppend | qr_code_tool.py:269-277 | processing a + b is processing a and then b, with the prompts concatenated |
| ScanHistory.FramesAreFlattened | qr_code_tool.py:259-277 | a camera session behaves exactly as processing all its frames' results as one list |
| ScanHistory.HistoryIsCollapse | qr_code_tool.py:236-241 | from a history with no repeated neighbours, the new history is the old one followed by the non-empty decoded strings, with runs of equal neighbours collapsed |
| ScanHistory.SessionHistory | qr_code_tool.py:431 | after a camera session the history is Collapse(["link"] + the non-empty decoded strings) |
| ScanHistory.ProcessOne | qr_code_tool.py:236-241 | processing a one-element result list is a single offer |
| ScanHistory.RepeatIsSuppressed | qr_code_tool.py:270-271 | re-processing a frame whose only result equals the last entry changes nothing and prompts nobody |
| ScanHistory.ConsecutiveFrames | qr_code_tool.py:269-277 | frames [a], [a], [b] prompt for a and then b only |
| ScanHistory.AlternationPrompts | qr_code_tool.py:269-277 | results a, b, a prompt three times, since only the last entry is compared |
| ScanHistory.SeedSuppressesLink | qr_code_tool.py:431 | a first scan of "link" is not prompted, because the seed is "link" |
| Display.Prefix | qr_code_tool.py:383 | Python's s[:n] has length min(len, n) and is a prefix of s |
| Display.Truncate | qr_code_tool.py:193-195 | the result has length limit + 3 when the input is longer than limit, and the input's length otherwise, so at most limit + 3. It starts with the input's first min(len, limit) characters. It ends in "..." when cut, and equals the input when not |
| Display.PreviewContent | qr_code_tool.py:383 | the preview has 103 characters when the input is longer than 100 and the input's length otherwise, and starts with the input's first min(len, 100) characters |
| Display.PreviewIsTruncate | qr_code_tool.py:383 | the preview equals the truncation at 100: s[:100] + "..." when longer than 100, otherwise s; at most 103 characters |
| Display.UrlDisplayShape | qr_code_tool.py:193-195 | the URL display is s[:50] + "..." when longer than 50, otherwise s; at most 53 characters |
| Display.TruncateIdempotent | qr_code_tool.py:193-195 | truncating twice is truncating once |
| Display.TruncationCanBeInvisible | qr_code_tool.py:193-195 | a string of exactly limit + 3 characters that ends in "..." is its own truncation |

## Left out

- GUI: the Tk windows, menus, dialogs, message boxes and file pickers (qr_code_tool.py:110-169, 186-213, 301-507). They are user interface and I/O. The user's answer to the open-link prompt does not affect the history, because the string is appended before the prompt is shown.
- QR encoding with `qrcode` and decoding with `pyzbar` (qr_code_tool.py:28-39, 173-176). These are foreign libraries. Decoded strings are an input list, and the rendered QR image is an input grid.
- Camera capture, frame display, key polling, and drawing rectangles and text (qr_code_tool.py:13-14, 179-183, 252-299). A camera session is a finite list of per-frame result lists.
- Threading (qr_code_tool.py:311-314, 442-444). The camera loop is modelled as sequential.
- PIL open, LANCZOS resize, mode conversion, the final alpha-mask paste, and save (qr_code_tool.py:48-49, 53, 80-83, 87, 100, 103). Their resampling and compositing rules are not visible. The background is taken as an already resized list of RGB pixels.
- Temporary-path handling, copying to the chosen path, and opening the browser (qr_code_tool.py:165, 205, 375-380). These are file-system and process effects.
- Rounding of the floating-point brightness at exactly 128.0 (qr_code_tool.py:63). The model uses the exact integer comparison. The two differ only at an integer luma of exactly 128000. For example, on the average (128, 128, 128) the floating-point sum falls just below 128, so the source takes the dark branch and picks (208, 208, 208). The model takes the light branch and picks (48, 48, 48); Palette.LumaBoundaryIsLight states this.
- Display.UrlDisplay: the 50-character display is computed but never shown; the prompt shows the full string (qr_code_tool.py:200). The model states the computation only.
