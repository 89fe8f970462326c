# Style helpers and picture URLs

This project models two pieces of string-building logic from a website front end.

- **The style helpers** (`src/styles/mixin.tsx`): small functions that turn design tokens into CSS declarations.
  - `addPixel` puts the unit `px` on a number.
  - `size` and `contentCentering` emit width blocks.
  - `centering` picks one of three modes from the shape of its arguments and reads its sizes with `parseInt`.
  - The font helpers `fontPixel`, `fontRem` and `fontVW` emit an optional letter spacing, an optional line height, then the font size.
  - `bgImg` and `bgImgMultiple` build background layers.
  - `toggleDisplay` builds a show/hide block.
  - `media` builds a table from breakpoint labels to `@media` wrappers.
- **The picture component** (`src/components/Elements/Picture.tsx`): derives the URLs of a `<picture>` element from an image path.
  - The narrow-layout `<source>`, the wide-layout `<source>` with an optional double-density ("retina") candidate, and the fallback `<img>`.
  - Every URL is the image root, the sub-directory of the path, a layout directory and the file name, with every run of slashes collapsed to one.

The output of emotion's `css` tag is modelled as an ordered list of declarations (`Css.Block`), not as text. That lets the contracts state exactly which declarations are present, in which order, and with which values.

Files:

- `js.dfy` (module `Js`): the JavaScript built-ins the code relies on.
  - number-to-text conversion;
  - `parseInt(s, 10)` as a prefix parser returning an optional integer;
  - `split`/`pop`/`slice`/`join` on a one-character separator;
  - ASCII `toLowerCase`;
  - `indexOf`, and `replace` with a string pattern, including the `$` patterns of the replacement string.
- `css.dfy` (module `Css`): declarations, blocks, `@media` rules, and `ValueOf`, the value of the first declaration of a property, in list order.
  - A number the source computes in floating point is kept symbolic as `(num / den) * scale`.
  - Its text is given only where it is exact.
- `configuration.dfy` (module `Configuration`): the site configuration module as a record. Every helper that reads it takes it as a parameter.
- `mixin.dfy` (module `Mixin`): the style helpers. `media` is a method with a loop, because the source builds the table one key at a time in a `reduce`.
- `picture.dfy` (module `Picture`): the slash collapse, the path pieces, the source set and the rendered element.

Where the documentation and the code differ, the model follows the code:

- The comment above `centering` shows `centering({ type: 'absolute' })`. With the parameter list as written, that call passes the object as `width`. The model follows the parameter list: the mode is the third argument, and any non-empty `width` selects the fixed-size block.

## Model

| member | source | states |
|---|---|---|
| Js.IntText | src/styles/mixin.tsx:7 | the text of an integer starts with '-' exactly when it is negative, and the rest is decimal digits |
| Js.IntTextCanonical | src/styles/mixin.tsx:7 | the digits of an integer's text never start with '0', except for the text "0" itself |
| Js.NatTextValue | src/styles/mixin.tsx:7 | the digits written for a natural number have that number as their value |
| Js.NumberText | src/styles/mixin.tsx:7 | an integer is written as its decimal text, NaN as "NaN" |
| Js.TrimStartSkipsWhiteSpace | src/styles/mixin.tsx:74 | parseInt first drops a prefix made only of white space, leaving text that does not start with white space |
| Js.DigitPrefix | src/styles/mixin.tsx:74 | parseInt reads the longest run of decimal digits: a prefix, all digits, followed by a non-digit or the end |
| Js.ParseIntNaN | src/styles/mixin.tsx:74 | parseInt gives NaN exactly when no digit follows the white space and sign; a negative result only follows a '-' |
| Js.ParseIntText | src/styles/mixin.tsx:74 | parseInt reads back the text of any integer, whatever non-digit text (such as "px") follows it |
| Js.ParseIntDigits | src/styles/mixin.tsx:74 | an optional minus sign, digits, then a non-digit parse to the signed value of the digits |
| Js.Split | src/components/Elements/Picture.tsx:15 | split gives at least one piece and no piece holds the separator |
| Js.Join | src/components/Elements/Picture.tsx:15 | joining a single piece gives that piece |
| Js.JoinSplit | src/components/Elements/Picture.tsx:15 | joining the pieces of a split with the same separator gives the string back |
| Js.SplitJoin | src/components/Elements/Picture.tsx:15 | splitting a join of separator-free pieces gives the pieces back |
| Js.SplitCount | src/components/Elements/Picture.tsx:15 | the split has more than one piece exactly when the separator occurs |
| Js.AfterLast | src/components/Elements/Picture.tsx:12 | `split(sep).pop()` is the suffix after the last separator, the whole string without one |
| Js.UpToLast | src/components/Elements/Picture.tsx:15 | the prefix up to and including the last separator, followed by the text after it, is the whole string |
| Js.ToLowerCase | src/components/Elements/Picture.tsx:12 | lower-casing keeps the length and maps each character on its own |
| Js.IndexOf | src/components/Elements/Picture.tsx:29 | the position found is an occurrence with none before it; no position means no occurrence at all |
| Js.IndexOfFirst | src/components/Elements/Picture.tsx:29 | an occurrence with no earlier one is the position indexOf finds |
| Js.Substitution | src/components/Elements/Picture.tsx:29 | a replacement string without '$' is inserted as it is |
| Js.SubstitutionPatterns | src/components/Elements/Picture.tsx:29 | in a replacement string `$$` stands for '$', `$&` for the matched text, `` $` `` for the text before the match and `$'` for the text after it |
| Js.SubstitutionLiteral | src/components/Elements/Picture.tsx:29 | every other character of a replacement string, including a '$' not followed by one of `$&`'`, is copied as it is |
| Js.Replace | src/components/Elements/Picture.tsx:29 | replace changes nothing without an occurrence, and otherwise puts the substituted replacement in place of the first occurrence only; a replacement without '$' is inserted as it is |
| Css.ValueOfFound | src/styles/mixin.tsx:42-45 | a block gives a property a value exactly when it declares that property |
| Css.ValueOfDeclared | src/styles/mixin.tsx:42-45 | the value found for a property is the value of one of the block's declarations of it |
| Css.ValueOfConcat | src/styles/mixin.tsx:73-79 | in a fragment nested before further declarations, the nested fragment's declaration comes first, and properties it lacks are looked up in the rest |
| Css.ValueOfAt | src/styles/mixin.tsx:42-45 | the value found for a property is the one of its first declaration in list order |
| Css.AsStyle | src/styles/mixin.tsx:189 | a block interpolated into a style becomes one rule per declaration, in order |
| Css.QuantityText | src/styles/mixin.tsx:78 | a quotient computed in floating point is written as NaN, or as its integer text when it is integral; a division by zero gives NaN for 0 / 0 and otherwise Infinity or -Infinity by the signs |
| Css.ValueText | src/styles/mixin.tsx:78 | a value made only of literal text always has a text |
| Mixin.AddPixel | src/styles/mixin.tsx:7 | a number becomes its decimal text followed by "px", NaN becomes "NaNpx"; text is returned unchanged |
| Mixin.AddPixelIdempotent | src/styles/mixin.tsx:7 | applying addPixel to its own output changes nothing |
| Mixin.AddPixelParses | src/styles/mixin.tsx:7 | parseInt reads the number back out of addPixel's output |
| Mixin.Size | src/styles/mixin.tsx:42-45 | width is declared before height, both through addPixel |
| Mixin.SizeSquare | src/styles/mixin.tsx:42 | size(w) is size(w, w): the height defaults to the width |
| Mixin.ContentCentering | src/styles/mixin.tsx:53-58 | auto left and right margins, relative position, then the width through addPixel |
| Mixin.OrZero | src/styles/mixin.tsx:72-74 | `height || '0'` is never empty: a null or empty height (a falsy one) is read as '0', any other is kept |
| Mixin.Parsed | src/styles/mixin.tsx:74 | the number parseInt gives: NaN exactly when parseInt finds no digits, otherwise the integer it reads |
| Mixin.HalfMargin | src/styles/mixin.tsx:78 | the margin value: the height over -2 in px, then 0 0, then the width over -2 in px |
| Mixin.FixedCentering | src/styles/mixin.tsx:72-79 | the parsed sizes, absolute position at 50%/50%, and a margin of height / -2 on top and width / -2 on the left |
| Mixin.Placement | src/styles/mixin.tsx:75-78 | absolute position at 50%/50%, then the margin of minus half the height on top and minus half the width on the left |
| Mixin.StretchBlock | src/styles/mixin.tsx:82-89 | absolute position with top, right, bottom and left all 0 |
| Mixin.TranslateBlock | src/styles/mixin.tsx:90-96 | absolute position at 50%/50% with translate(-50%, -50%) |
| Mixin.Centering | src/styles/mixin.tsx:67-103 | a non-empty width selects the fixed block with a missing height read as '0'; otherwise 'absolute' and 'translate' select their blocks and anything else gives nothing |
| Mixin.CenteringWidthWins | src/styles/mixin.tsx:72-79 | with a width, the mode argument plays no part |
| Mixin.CenteringSquare | src/styles/mixin.tsx:69 | without a height argument the fixed block uses the width for both sizes |
| Mixin.ZeroPixels | src/styles/mixin.tsx:74 | parseInt('0') is 0 and addPixel(0) is "0px" |
| Mixin.CenteringNotANumber | src/styles/mixin.tsx:72-74 | a non-empty width in which parseInt finds no number gives the width "NaNpx" rather than an error |
| Mixin.CenteringZeroHeight | src/styles/mixin.tsx:74 | a null or empty height gives the height 0px |
| Mixin.CenteringParses | src/styles/mixin.tsx:74 | sizes written as integers followed by a unit select the fixed block for exactly those integers |
| Mixin.NegativeHalf | src/styles/mixin.tsx:78 | dividing an even number by -2 is exact and gives minus its half |
| Mixin.MarginText | src/styles/mixin.tsx:78 | for even sizes the margin text is "-h/2px 0 0 -w/2px" |
| Mixin.CenteringPixels | src/styles/mixin.tsx:72-79 | centering('500', '250') style calls get the integer sizes in px and, for even sizes, minus half of each in the margin |
| Mixin.LetterSpacingDecl | src/styles/mixin.tsx:121-123 | a letter-spacing declaration of the size / 1000 in em |
| Mixin.LineHeightDecl | src/styles/mixin.tsx:111-113 | a unitless line-height declaration of the line height over the font size |
| Mixin.FontBlock | src/styles/mixin.tsx:132-148 | letter-spacing exactly when given, then line-height exactly when given, then font-size, always present and last |
| Mixin.FontPixel | src/styles/mixin.tsx:132-136 | the shared shape, with the font size in px |
| Mixin.FontRem | src/styles/mixin.tsx:138-142 | the shared shape, with the font size / 10 in rem |
| Mixin.FontVW | src/styles/mixin.tsx:144-148 | the shared shape, with the font size over the narrow canvas width times 100 in vw |
| Mixin.FontRemPlain | src/styles/mixin.tsx:138-142 | fontRem(20) is the single declaration font-size: 2rem |
| Mixin.BgImg | src/styles/mixin.tsx:202-211 | background-size appears only for a non-empty size and then comes first; the background layer is url(file), position, repeat and color |
| Mixin.OrEmpty | src/styles/mixin.tsx:209-210 | a missing repeat or color is interpolated as '' and a present one as it is |
| Mixin.At | src/styles/mixin.tsx:241 | `list[i] ?? ''`: the entry at i, or '' past the end |
| Mixin.Layer | src/styles/mixin.tsx:241 | a layer is "url(" + image + ") " followed by position, repeat, color and size separated by single spaces, empty entries included |
| Mixin.Layers | src/styles/mixin.tsx:238-243 | exactly one layer per file name, in order, layer i built from entry i of each list |
| Mixin.BgImgMultiple | src/styles/mixin.tsx:225-244 | one background-image declaration: the layers joined by ", " |
| Mixin.BgImgMultipleIgnoresExtra | src/styles/mixin.tsx:238-243 | list entries beyond the number of file names play no part |
| Mixin.BgImgMultipleMissingIsEmpty | src/styles/mixin.tsx:241 | a list shorter than the file names behaves as if padded with '' |
| Mixin.FadeValue | src/styles/mixin.tsx:259 | the transition runs opacity and visibility over the same duration with the same easing |
| Mixin.VisibilityState | src/styles/mixin.tsx:260-262 | visible gives opacity 1, pointer-events auto, visibility visible; hidden gives 0, none, hidden |
| Mixin.ToggleDisplay | src/styles/mixin.tsx:253-263 | the transition on opacity and visibility appears exactly when asked for and comes first; then the state |
| Mixin.Wrap | src/styles/mixin.tsx:187-191 | one `@media` rule holding the query and the given style, nothing else |
| Mixin.WrapKeepsDeclarations | src/styles/mixin.tsx:187-191 | a helper's declarations passed to a media wrapper sit inside the rule unchanged and in order |
| Mixin.Media | src/styles/mixin.tsx:186-193 | the table has exactly the configured labels, and each entry wraps a style in @media with that label's query |
| Picture.CollapseSlashes | src/components/Elements/Picture.tsx:17 | collapsing never lengthens the string and keeps its first character |
| Picture.CollapseNoDoubleSlash | src/components/Elements/Picture.tsx:17 | the collapsed string has no two adjacent slashes |
| Picture.CollapseKeepsText | src/components/Elements/Picture.tsx:17 | collapsing keeps every character other than '/', in order |
| Picture.CollapseFixpoint | src/components/Elements/Picture.tsx:17 | a string without a double slash is left as it is |
| Picture.CollapseIdempotent | src/components/Elements/Picture.tsx:17 | collapsing twice is collapsing once |
| Picture.CollapseConcat | src/components/Elements/Picture.tsx:29 | where no run of slashes crosses the boundary, collapsing a concatenation collapses each part |
| Picture.CollapseCandidate | src/components/Elements/Picture.tsx:29 | collapsing ", url 2x" collapses only the URL |
| Picture.Extension | src/components/Elements/Picture.tsx:12 | the lower-cased text after the last '.', the whole path lower-cased without one |
| Picture.ExtensionAfterDot | src/components/Elements/Picture.tsx:12 | a path ending in "." + ext has the extension ext, lower-cased |
| Picture.FileName | src/components/Elements/Picture.tsx:21 | the file name holds no '/', and is the whole path without one |
| Picture.SubDirectory | src/components/Elements/Picture.tsx:15 | '' without a '/', otherwise the prefix ending in the last '/'; followed by the file name it is the path |
| Picture.ImagePath | src/components/Elements/Picture.tsx:16 | the image root alone for a path without '/', otherwise the image root followed by a sub-directory ending in '/' |
| Picture.ImageUrl | src/components/Elements/Picture.tsx:16-21 | the collapsed image root, sub-directory and layout directory, then the file name; no double slash; no other character lost |
| Picture.RetinaSource | src/components/Elements/Picture.tsx:29 | without an occurrence of "." + ext the path is unchanged |
| Picture.RetinaWithoutOccurrence | src/components/Elements/Picture.tsx:29 | without an occurrence of "." + ext, such as an upper-case extension, the double-density URL is the plain one |
| Picture.DotExtensionAt | src/components/Elements/Picture.tsx:29 | in a path with one '.', "." + ext first occurs at that '.' |
| Picture.RetinaSourceTypical | src/components/Elements/Picture.tsx:29 | a path with one '.' and a lower-case extension gets "@2x" inserted before the '.' |
| Picture.RetinaUrl | src/components/Elements/Picture.tsx:29 | the collapsed image directory and wide-layout directory, then the file name of the double-density path; no double slash |
| Picture.RetinaTypical | src/components/Elements/Picture.tsx:29 | "dir/stem.ext" gets the double-density file name "stem@2x.ext" |
| Picture.AfterLastOfName | src/components/Elements/Picture.tsx:21 | the file name of a directory followed by a slash-free name is that name |
| Picture.SourceSet | src/components/Elements/Picture.tsx:27-33 | with retina, the plain URL, ", ", the double-density URL and " 2x"; without, the plain URL |
| Picture.SourceSetNoDoubleSlash | src/components/Elements/Picture.tsx:29-31 | the source set holds no double slash |
| Picture.Render | src/components/Elements/Picture.tsx:35-40 | the media attributes name the breakpoints; the sources and image use the narrow and wide URLs; loading is "lazy" exactly when lazy loading is on |
| Picture.PlainSourceIsImage | src/components/Elements/Picture.tsx:31 | without retina the wide source set is the image URL |
| Picture.NarrowSourceSwapsDirectory | src/components/Elements/Picture.tsx:37-39 | the narrow source is the image URL with the narrow directory in place of the wide one |
| Picture.NoDoubleSlashAnywhere | src/components/Elements/Picture.tsx:37-39 | no emitted URL holds a double slash |

## Left out

- Floating-point numbers: a quotient the source computes in floating point (`lineHeight`, `letterSpacing`, `fontRem`'s `/ 10`, `fontVW`'s vw value, the centering margin for odd sizes, `toggleDisplay`'s duration) is kept symbolic. Its text is given only when it is an integer, NaN or an infinity.
- Css.QuantityText: gives no text for a non-integral quotient, because JavaScript's shortest round-trip formatting of doubles is not modelled.
- Number text for magnitudes of 1e21 and more (exponent notation) and for integers beyond 2^53 (rounding) is not modelled: integers are unbounded.
- Js.ParseIntText: holds for all integers. JavaScript's parseInt loses precision beyond 2^53, which the model does not capture.
- Js.ToLowerCase: maps ASCII letters only. Full Unicode case mapping is not modelled.
- Numbers passed to addPixel and the font helpers are integers. Non-integral numbers are not modelled.
- Configuration.Config: the narrow canvas width and the two breakpoints are integers, so a fractional breakpoint such as 767.98 in the `(max-width: …px)` media attribute is not modelled.
- Css.ValueOf: reports the first declaration of a property in list order. The CSS cascade, where a later declaration overrides an earlier one, and shorthand expansion, where `background` in bgImg resets the `background-size` declared before it, are not modelled.
- emotion's serialisation of the declaration list into text is not modelled. That includes its whitespace and the lone `;` a null interpolation leaves behind.
- `percentage`, `vwsp` and `vwpc` are left out. They are floating-point formatting only.
- `smallText` and `textReplace` are left out. They emit constant text.
- Mixin.ToggleDisplay: the `transition` argument is a boolean standing for `'transition'` versus `null`.
- Mixin.Media: the source visits the labels in `Object.keys` order. The model picks them in an arbitrary order, which yields the same table.
- Picture's image-size state (`useState`, `useEffect`, `new Image()` and its load callback) and the `width`/`height` attributes it fills are left out. They depend on the browser loading the image.
- JSX rendering is modelled as a record of the attribute values (`Picture.Element`).
- The site configuration module is not part of this model. Its values are parameters (`Configuration.Config`).
- The other files of the repository (global styles, pages, layouts, SVG components, build configuration) are not part of this model. They hold no logic of their own.
