# Carworld gallery, modelled in Dafny

This is a model of the gallery script of the Carworld site (`script.js`). Each car page has a main
image named `images/<prefix>-<n>.jpg` for n from 1 to 10, a row of thumbnails, an optional
lightbox and a mobile menu. The script does five things. It reads the car prefix and the starting
index out of the main image's path with two regular expressions. It moves to an image with
`updateImage`, which wraps the index around the ten images, rebuilds the path, updates the
lightbox if it is open and re-highlights the matching thumbnails. It wires the arrow buttons, the
thumbnails, swipes and the keyboard to `updateImage`. It opens and closes the lightbox. It toggles
the mobile menu.

The project is split into four modules:

- `Wrappers` (`wrappers.dfy`): an `Option` type, standing for `null` or a regex capture.
- `Strings` (`strings.dfy`): decimal digits for `parseInt`, and the number-to-text conversion of
  a template literal. It also holds `Contains`, the model of `String.prototype.includes`.
- `ImagePath` (`image_path.dfy`): the two regular expressions and the path template.
  - `/images\/(.+)-\d+\.jpg/` is modelled by `GetCarPrefix`, and `/-(\d+)\.jpg/` by
    `FindIndexToken` and `IndexOf`. Both follow JavaScript matching: the match that starts
    leftmost wins, `.+` is greedy, and `.` does not match a line terminator.
  - The template `images/${carPrefix}-${n}.jpg` is `ImageSrc`. The thumbnail needle
    `${carPrefix}-${n}.jpg` is `ThumbName`.
  - The lemmas prove that the regexes read back what the template builds.
- `Page` (`page.dfy`): the index arithmetic, and the `Gallery` class.
  - `Gallery` holds the page state that the handlers update in place: the current index, the
    main and lightbox image sources, the lightbox's visibility, the touch coordinates, and an
    array of thumbnail highlight flags.
  - Each handler is a method. It is proved against the class invariant `Valid` and the
    two-state predicate `Updated`, which describes one call of `updateImage`.
  - `MobileMenu` models the menu toggle.

## Model

| member | source | states |
|---|---|---|
| Strings.Decimal | script.js:55 | the text of an index in the template is a non-empty run of digits with no leading zero |
| Strings.ParseDecimal | script.js:43 | `parseInt` on a `\d+` capture, read as a decimal number; `ParseDecimalOfDecimal` pins it as the inverse of the template's number text |
| Strings.ParseDecimalOfDecimal | script.js:43 | `parseInt` on the text of a number gives back that number |
| Strings.Contains | script.js:71 | `includes` is true exactly when the needle occurs at some position of the string |
| Strings.ContainsOwnSuffix | script.js:70-71 | a string contains any string it ends with, which covers a thumbnail `src` made absolute |
| ImagePath.TokenAt | script.js:42 | what `-(\d+)\.jpg` captures when tried at one position is all digits |
| ImagePath.TokenAtSound | script.js:42 | what `TokenAt` returns is a real match of `-\d+\.jpg` at that position, with the capture read from the string |
| ImagePath.TokenAtComplete | script.js:42 | every match of `-\d+\.jpg` at a position is found, and the capture is unique because backtracking inside `\d+` cannot succeed |
| ImagePath.FindIndexToken | script.js:42 | the capture of `src.match(/-(\d+)\.jpg/)`, when there is one, is all digits |
| ImagePath.FindIndexTokenIsLeftmost | script.js:42 | the match fails exactly when no position matches; otherwise it is the match at the leftmost matching position |
| ImagePath.IndexOf | script.js:42-43 | `match ? parseInt(match[1]) : 1` for the index regex (the same expression is on lines 85-86); `FindIndexTokenIsLeftmost` pins which capture it reads, and `IndexOfImageSrc` shows it reads back a built path |
| ImagePath.PrefixAt | script.js:34 | a capture of `(.+)` is never empty |
| ImagePath.PrefixAtIsGreedy | script.js:34 | at one position, `images\/(.+)-\d+\.jpg` succeeds exactly when some capture fits; the one returned is a match and is the longest such capture, since `.+` is greedy |
| ImagePath.GetCarPrefix | script.js:33-35 | a prefix that `getCarPrefix` returns is never empty |
| ImagePath.GetCarPrefixIsLeftmost | script.js:33-35 | `getCarPrefix` returns `null` exactly when the pattern matches nowhere; otherwise it returns the capture of the leftmost match |
| ImagePath.PrefixImpliesIndexToken | script.js:41-43 | whenever a car prefix parses, the index regex also matches, so the fallback `: 1` on line 43 is never taken |
| ImagePath.ImageSrc | script.js:55 | the template `images/${carPrefix}-${currentImageIndex}.jpg`; `IndexSuffixToken`, `CarPrefixOfImageSrc` and `IndexOfImageSrc` pin what the two regexes read back from it |
| ImagePath.ThumbName | script.js:71 | the needle `${carPrefix}-${currentImageIndex}.jpg` of `includes`; `ImageSrcContainsThumbName` and `OtherImageNotHighlighted` pin which built paths contain it |
| ImagePath.IndexSuffixToken | script.js:55 | in a built path, the index regex matches right after the prefix and captures the index's text |
| ImagePath.CarPrefixOfImageSrc | script.js:33-35 | `getCarPrefix` on a built path `images/<p>-<n>.jpg` returns `p`, for any non-empty `p` without a line terminator |
| ImagePath.TokenInsidePrefix | script.js:42 | in a built path, a match of the index regex that starts before the `-<n>.jpg` suffix would be a match inside the prefix |
| ImagePath.IndexOfImageSrc | script.js:42-43 | the index parse of a built path gives back `n`, provided the prefix holds no `-<digits>.jpg` of its own |
| ImagePath.ImageSrcContainsThumbName | script.js:55-71 | a thumbnail whose `src` is the built path, with any scheme and host in front, contains the needle `<p>-<n>.jpg` |
| ImagePath.OnlyTokenOfImageSrc | script.js:42 | in a built path whose prefix holds no `-<digits>.jpg`, the index regex matches at one position only, right after the prefix |
| ImagePath.OtherImageNotHighlighted | script.js:71 | the built path of image j does not contain the file name of a different image i of the same car, provided the prefix holds no `-<digits>.jpg` of its own |
| Page.Wrap | script.js:51-52 | below 1 gives 10, above 10 gives 1, and an index in 1..10 is kept; the result is always in 1..10 |
| Page.InitialIndex | script.js:40-44 | without a prefix the start index is 1; with one, it is `parseInt` of the leftmost `-<digits>.jpg` capture, which always exists |
| Page.InitialIndexOfImageSrc | script.js:38-44 | a page whose main image is already a built path of an index in 1..10 starts on that index with that prefix, provided the prefix is non-empty, has no line terminator and holds no `-<digits>.jpg` of its own |
| Page.NextPrevInverse | script.js:78-79 | from any image, "next" then "previous" (or the reverse) comes back to it |
| Page.NextIterates | script.js:79 | k presses of "next" from image i reach image ((i - 1 + k) mod 10) + 1 |
| Page.NextTenTimesIsIdentity | script.js:79 | ten presses of "next" return to the starting image |
| Page.Gallery.constructor | script.js:27-44 | setup parses the prefix and the start index, then calls `updateImage` once (line 155); the resulting state satisfies `Valid`, a lightbox that starts hidden keeps its image `src`, and without a prefix the page is left as it was |
| Page.Gallery.UpdateImage | script.js:47-75 | without a prefix nothing changes. Otherwise the index becomes the wrapped value and the main `src` becomes the built path. An open lightbox gets the same path. Exactly the thumbnails whose `src` contains `<p>-<n>.jpg` are highlighted |
| Page.Gallery.Prev | script.js:78 | the "previous" arrow is `updateImage(current - 1)`; the lightbox arrow on line 114 is the same handler |
| Page.Gallery.Next | script.js:79 | the "next" arrow is `updateImage(current + 1)`; the lightbox arrow on line 115 is the same handler |
| Page.Gallery.ThumbnailClick | script.js:84-88 | a thumbnail click is `updateImage` of the index parsed from that thumbnail's `src` |
| Page.Gallery.OpenLightbox | script.js:95-99 | clicking the main image opens the lightbox on the main image's `src`, if the page has a lightbox |
| Page.Gallery.CloseLightbox | script.js:102-105 | closing hides the lightbox and changes nothing else |
| Page.Gallery.LightboxClick | script.js:109-111 | a click reaching the lightbox closes it only if its target is the lightbox background |
| Page.Gallery.TouchStart | script.js:135 | `touchstart` records the start coordinate and changes nothing else (line 140 is the same for the lightbox image) |
| Page.Gallery.HandleSwipe | script.js:122-132 | a swipe left by more than 50 px is "next", a swipe right by more than 50 px is "previous", and anything shorter changes nothing; the two tests never both hold |
| Page.Gallery.TouchEnd | script.js:136 | `touchend` records the end coordinate and then runs the swipe test; the lightbox's visibility is kept, and a closed lightbox keeps its image `src` (line 141 is the same for the lightbox image) |
| Page.Gallery.KeyDown | script.js:145-152 | ArrowLeft is "previous", ArrowRight is "next", Escape hides the lightbox, and any other key changes nothing |
| Page.Gallery.CurrentThumbnailHighlighted | script.js:66-74 | after any event, a thumbnail whose `src` is (an absolute form of) the current image's path is highlighted |
| Page.Gallery.OtherThumbnailNotHighlighted | script.js:66-74 | after any event, a thumbnail whose `src` is the built path of an image other than the current one is not highlighted, provided the prefix holds no `-<digits>.jpg` of its own |
| Page.Gallery.ThumbnailClickTarget | script.js:84-88 | clicking a thumbnail whose `src` is the built path of image i moves the gallery to image i, provided the prefix holds no `-<digits>.jpg` of its own |
| Page.NextThenPrevRestores | script.js:78-79 | after "next" then "previous", the index, both image sources, the lightbox and every highlight are as before |
| Page.MobileMenu.Toggle | script.js:10-12 | a click on the menu button flips the menu's `hidden` class |
| Page.ToggleTwiceRestores | script.js:10-12 | two clicks on the menu button leave the menu as it was |

## Left out

- Page elements and the DOM API are not modelled. Lookups, listener registration, `stopPropagation`, the cursor style and the `flex` class are left out. Visibility is a boolean, and a thumbnail's three highlight classes are one boolean.
- A missing element is modelled only for the lightbox. `hasLightbox` stands for the lightbox and its image being present together. A page with a lightbox but no lightbox image, on which line 62 would fail, is not modelled.
- Missing gallery buttons are not modelled: each handler is a method that is simply never called.
- Pages without a main image are not modelled (line 27): there the gallery script does nothing.
- Page.MobileMenu: only the case where both the toggle button and the menu exist is modelled (line 9); otherwise no listener is attached.
- Every image `src` is the string that was assigned to it. Browsers resolve it to an absolute URL, and that resolution is not modelled. A thumbnail may still carry an absolute URL, which `Contains` handles.
- Page.Gallery.OtherThumbnailNotHighlighted: stated only for a thumbnail `src` that is exactly a built path. An absolute `src` would also need its scheme and host to hold no `-<digits>.jpg`.
- Page.Gallery.ThumbnailClickTarget: stated only for a thumbnail `src` that is exactly a built path, not an absolute one, and only for a prefix that holds no `-<digits>.jpg` of its own. For a prefix such as `abc-1.jpg-x`, the leftmost-match rule of the index parse finds the `1` inside the prefix, so that page does not move to the clicked image.
- Page.InitialIndexOfImageSrc: stated only for a non-empty prefix with no line terminator and no `-<digits>.jpg` of its own. For other prefixes the page can start on an index other than the one in its path.
- `parseInt` is exact on unbounded integers. A JavaScript number rounds values above 2^53, and digit runs too long for a double give `Infinity`. Neither can be observed: every such value is above 10, so `Wrap` sends it to 1, as lines 51-52 do with the rounded value.
- Touch coordinates (`screenX`) are integers, not floating point.
- The thumbnails are the images found when the script starts (lines 82-83 give them all the `thumbnail` class). Thumbnails added to the page later are not modelled.
- Events are modelled one at a time, as the single-threaded event loop runs them.
- The mobile menu's initial visibility is a parameter. The HTML that fixes it is not part of this model.
