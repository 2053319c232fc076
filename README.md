# NASA Image of the Day kiosk — a Dafny model of its logic

The kiosk shows NASA's image of the day full screen. It also drives an LED
controller with a palette taken from that image. This project models the
parts of `Nasa-IOTD.py` that are program logic rather than library glue:

- `palette_to_hex` (module `Palette`). It takes a palette of RGB colours on
  the 0–255 scale and sends each one through Python's `colorsys`:
  `rgb_to_hsv` on the raw channels, saturation overwritten with 0.8,
  `hsv_to_rgb`. It then truncates each channel with `int()` and writes it as
  two lowercase hex digits. The two `colorsys` functions are transcribed
  into module `Colorsys` over exact `real` arithmetic. This includes the
  grey case (hue 0, saturation 0), Python's `x % 1.0` on the hue, and the
  six sectors chosen by `int(h*6) % 6`. The `"{0:0{1}x}"` format is module
  `HexFormat`, together with its inverse, the value of a hex-digit string.
- `get_image_url_from_feed` (`Kiosk.App.GetImageUrlFromFeed`). It scans the
  links of the first feed entry. At the first link whose media type contains
  `"image"`, it answers the href of the second link, whichever link matched.
  If no link matches, the Python function falls off its end and returns
  `None`. `entries[0]` and `links[1]` can raise `IndexError`. All three ends
  are modelled (`Lookup`).
- The URL-change guard of `update_image` (`Kiosk.App.UpdateImage`, specified
  by the pure `Kiosk.Refresh`). The feed is stored, and then the URL is looked
  up. Only when it differs from `current_url` does the method record it, then
  download, then decode. Downloading and decoding are function parameters that
  may fail. A failing step leaves the fields it would have written unchanged.
  `requests.get(None)` raises, so a `None` URL counts as a failed download
  (after `current_url` has already been set to `None`).
- The LED request URL of `update_leds` (`Kiosk.RequestUrl`). Python's
  `';'.join` is modelled by `Text.Join`. As its inverse, `Text.Split`
  splits at `;`.

The feed link selection follows the code, not the intent suggested by its
shape. The code matches on any link's media type but always answers
`links[1]`. The model keeps that behaviour.

## Model

| member | source | states |
|---|---|---|
| `Colorsys.Trunc` | Nasa-IOTD.py:35 | `int(x)` truncates toward zero: for x ≥ 0 the result is the largest integer not above x, for x < 0 the smallest not below it |
| `Colorsys.RemOne` | Nasa-IOTD.py:29 | `x % 1.0` inside `rgb_to_hsv`: Python's floored remainder, which lies in [0, 1) and differs from x by an integer |
| `Colorsys.RgbToHsv` | Nasa-IOTD.py:29 | the value component is the largest channel; the hue lies in [0, 1); a grey colour gets hue 0 and saturation 0; defined whenever the largest channel is not 0 or the colour is grey (otherwise Python raises ZeroDivisionError) |
| `Colorsys.HsvToRgb` | Nasa-IOTD.py:31 | saturation 0 gives grey (v, v, v); in every case one channel is exactly v |
| `Colorsys.SectorColor` | Nasa-IOTD.py:31 | the six-way choice of `hsv_to_rgb` by sector: every channel is one of v, p, q, t, and the top channel v and the bottom channel p both occur |
| `Colorsys.HsvToRgbBounds` | Nasa-IOTD.py:31 | for h ≥ 0, s in [0, 1] and v ≥ 0 every channel lies in [v·(1−s), v] |
| `Colorsys.SectorRawHue` | Nasa-IOTD.py:29 | on a colour of sector k with top v, spread R > 0 and falling channel v − a, the hue before the division by 6 is k + a/R, or a/R − 1 in the last sector |
| `Colorsys.SectorInverse` | Nasa-IOTD.py:29-31 | on a colour of sector k with top v, spread R in (0, v] and falling channel v − a, `rgb_to_hsv` is defined and gives hue (k + a/R)/6, saturation R/v and value v |
| `Colorsys.HsvToRgbSpread` | Nasa-IOTD.py:31 | for h in [0, 1) and s ≠ 0, `hsv_to_rgb` gives the colour of sector int(h·6), in 0..5, with top v, low channel v − v·s and the falling and rising channels v − v·s·f and v − v·s·(1−f) |
| `Colorsys.HsvRoundTrip` | Nasa-IOTD.py:29-31 | `rgb_to_hsv(hsv_to_rgb(h, s, v)) == (h, s, v)` for h in [0, 1), s in (0, 1], v > 0 |
| `HexFormat.Format` | Nasa-IOTD.py:35 | `"{0:0{1}x}".format(n, width)`: at least one and at least width characters, starting with '-' exactly when n is negative; `FormatRoundTrip`, `FormatWidth` and `ByteFormat` state its value and exact length |
| `HexFormat.Digits` | Nasa-IOTD.py:35 | the hex digits of n use exactly as many characters as n needs: n < 16^len, and 16^(len−1) ≤ n when len > 1 |
| `HexFormat.DigitsRoundTrip` | Nasa-IOTD.py:35 | reading the digits of n back gives n |
| `HexFormat.PadRoundTrip` | Nasa-IOTD.py:35 | zero padding to any width keeps a hex-digit string all hex digits and keeps its value |
| `HexFormat.FormatRoundTrip` | Nasa-IOTD.py:35 | for n ≥ 0, `format(n, "0{w}x")` is all lowercase hex digits and reads back as n, for every width |
| `HexFormat.FormatWidth` | Nasa-IOTD.py:35 | a number below 16^w is rendered in exactly w characters |
| `HexFormat.ByteFormat` | Nasa-IOTD.py:35 | a byte renders as exactly two lowercase hex digits that read back as the byte |
| `Text.Contains` | Nasa-IOTD.py:94 | `"image" in link.type`: a pattern is found only in a string at least as long, and the empty pattern always; `ContainsIff` states what it decides |
| `Text.ContainsIff` | Nasa-IOTD.py:94 | `pat in s` holds exactly when pat occurs at some index of s |
| `Text.Split` | Nasa-IOTD.py:115 | Python's one-character `str.split`, which the program never calls: it is here as the inverse of the join on this line. It gives one more piece than there are separators, and no piece contains the separator |
| `Text.Join` | Nasa-IOTD.py:115 | `';'.join(palette)`: no parts give "", and otherwise the result starts with the first part and ends with the last; `SplitJoin`, `JoinCount` and `JoinLength` state the rest |
| `Text.SplitJoin` | Nasa-IOTD.py:115 | splitting `sep.join(parts)` at sep gives back the parts, when there is at least one part and none contains sep |
| `Text.JoinCount` | Nasa-IOTD.py:115 | a join of n ≥ 1 separator-free parts holds exactly n − 1 separators |
| `Text.JoinLength` | Nasa-IOTD.py:115 | a join of n ≥ 1 parts of length k with a one-character separator has n·k + n − 1 characters |
| `Palette.Correct` | Nasa-IOTD.py:29-31 | one channel of the corrected colour equals the largest input channel |
| `Palette.ColorToHex` | Nasa-IOTD.py:29-36 | the string built for one colour has at least two characters per channel; `ColorToHexWellFormed` and `EncodeColor` state its exact form |
| `Palette.HexPalette` | Nasa-IOTD.py:25-38 | one string per input colour, in input order; string i depends on colour i alone |
| `Palette.EncodeColor` | Nasa-IOTD.py:29-36 | the loop over the corrected channels builds exactly the colour's hex string |
| `Palette.PaletteToHex` | Nasa-IOTD.py:25-38 | the loop over the palette returns the hex palette: same length, element i the hex string of colour i |
| `Palette.CorrectedBounds` | Nasa-IOTD.py:29-35 | for channels in [0, 255], every corrected channel lies between 0.2 and 1 times the largest input channel, so within [0, 255] |
| `Palette.EncodeChannelsBytes` | Nasa-IOTD.py:33-35 | channels in [0, 256) encode to 2 hex digits each, and digits 2j, 2j+1 read back as `int(channel j)` |
| `Palette.ColorToHexWellFormed` | Nasa-IOTD.py:29-35 | for channels in [0, 255], the string has exactly 6 characters, all in 0-9a-f, and each pair is a byte equal to the truncated corrected channel |
| `Palette.MaxByte` | Nasa-IOTD.py:29-35 | the largest output byte equals `int(max(r, g, b))` |
| `Palette.BlackHex` | Nasa-IOTD.py:29-35 | black (0, 0, 0) maps to "000000" |
| `Palette.GreyBecomesRed` | Nasa-IOTD.py:29-31 | a grey colour (v, v, v) becomes (v, 0.2·v, 0.2·v) over exact reals |
| `Palette.SaturationDiscarded` | Nasa-IOTD.py:29-31 | two colours with the same hue and value give the same hex string |
| `Palette.CorrectedHsv` | Nasa-IOTD.py:29-31 | before truncation, a non-black corrected colour has the original hue and value and saturation exactly 0.8 |
| `Palette.CorrectIdempotent` | Nasa-IOTD.py:29-31 | correcting an already corrected colour changes nothing, before truncation |
| `Kiosk.ImageUrl` | Nasa-IOTD.py:92-95 | the reference lookup: Found only when the first entry has an image link and at least two links, and then with the second link's href; None exactly when the first entry has no image link; IndexError exactly when there is no entry or the image link has no second link; `App.GetImageUrlFromFeed` is proved equal to it |
| `Kiosk.Refresh` | Nasa-IOTD.py:73-81 | a lookup IndexError changes nothing; otherwise `current_url` becomes the looked-up URL; the pass keeps everything exactly when that URL equals the current one; `image_raw` only changes to what fetching the new URL returned; `image` only changes on a full replacement, to the decoding of the new `image_raw`; conversely a new URL is always recorded and fetched: a `None` URL or a failed download ends in DownloadFailed with only `current_url` changed, a successful download installs the new `image_raw`, and then a failed decode ends in DecodeFailed with the old image while a successful one shows the decoded image (Replaced) |
| `Kiosk.RefreshSettles` | Nasa-IOTD.py:73-81 | a second pass over the same feed result keeps everything and downloads nothing |
| `Kiosk.RequestUrl` | Nasa-IOTD.py:115 | the request URL starts with "http://" |
| `Kiosk.RequestParams` | Nasa-IOTD.py:115 | the URL is "http://" + address + "/pattern?params=" + P, where P splits at ';' back into the hex palette and holds n − 1 semicolons |
| `Kiosk.LedRequestForPalette` | Nasa-IOTD.py:112-115 | for n ≥ 1 colours in [0, 255], P has 7n − 1 characters and n − 1 semicolons, and splits into the n hex strings in palette order, each 6 lowercase hex digits |
| `Kiosk.App.constructor` | Nasa-IOTD.py:42-58 | the address and the refresh period in milliseconds are stored, `current_url` starts as "" and the default image is shown |
| `Kiosk.App.GetImageUrlFromFeed` | Nasa-IOTD.py:92-95 | no entries: IndexError; some image link: the second link's href, or IndexError with fewer than two links; no image link: None |
| `Kiosk.App.UpdateImage` | Nasa-IOTD.py:70-81 | the parsed feed is stored and the display state and outcome are those of `Refresh` on the looked-up URL |
| `Kiosk.App.UpdateLeds` | Nasa-IOTD.py:109-115 | the request URL is `RequestUrl` of the controller address and the hex palette of the given colours |

## Left out

- GUI: the tkinter window, `center`, label packing and configuration, the `<Configure>` binding, `on_resize` and the `after` rescheduling. This is event-loop plumbing with no logic of its own.
- Network and parsing I/O: `feedparser.parse`, `requests.get` for the image, and the LED request with its 5-second timeout and `ConnectTimeout` handler. The parsed feed is an input. The download is a function parameter returning `None` on failure. `UpdateLeds` returns the request URL and does not send it.
- Image libraries: `ColorThief.get_palette` is replaced by a palette parameter. PIL decoding and `resize_image_for_frame` (float aspect ratio, window height) are replaced by one decode step that is a function parameter.
- The `print` calls and argparse command-line handling.
- `Kiosk.App.constructor`: it does not make the first `update_image` call of line 63; a caller makes it with `UpdateImage`. In the source the default `image_raw` is a PIL image rather than bytes; the model takes default bytes.
- `Kiosk.App.UpdateImage`: it does not call `update_leds` (lines 87-88); `UpdateLeds` is a separate method.
- An entry whose link has no `type` attribute (an AttributeError in Python) is not modelled: every link has a media type.
- Float precision: the model computes over exact reals, not IEEE doubles. The value component passes through `colorsys` unchanged, so `Palette.MaxByte` and `Palette.BlackHex` agree with the program. The other channels can differ by one after truncation: in floats `1.0 - 0.8` is `0.19999999999999996`, so white (255, 255, 255) gives "ff3232" in Python but "ff3333" over reals.
- `Palette.GreyBecomesRed`: states the low channels as exactly 0.2·v, which holds over reals only; in floats they can come out one lower after truncation.
- `Palette.CorrectIdempotent`, `Palette.CorrectedHsv` and `Colorsys.HsvRoundTrip` are exact over reals and hold only up to rounding in floats. They are also stated before truncation: the hex strings themselves need not be a fixed point.
- No input normalisation, clamping or range check is modelled, because the code does none of these. The well-formedness properties require channels in [0, 255]; `PaletteToHex` requires only what avoids Python's ZeroDivisionError.
