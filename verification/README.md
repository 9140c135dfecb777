# editsvgcode variable engine — a Dafny model

editsvgcode is a browser SVG editor. A document can declare numeric *variables*, written as
`<editsvg:variable name="w" value="150" min="20" max="300"/>` elements, and use them as
`{w}` placeholders anywhere in its text. Each time the document changes, the editor:

1. extracts the declarations (`parseVariables`);
2. merges them with the live variable state, so that a value the user set with a slider
   survives an unrelated edit (the merge loop of `render`);
3. replaces every placeholder with the variable's current value (`substituteVariables`).

A variable of type `button` drives an attack/decay *envelope* (`triggerAttackDecay`). Its
value climbs linearly from `min` to `max` over `attack` seconds, falls back over `decay`
seconds, and stays at `min`. The editor also has a small pretty-printer (`formatXml`): it
breaks the text between adjacent tags and indents each line by the nesting it has seen.

This project models these five pieces as pure Dafny functions over immutable data:

| file | module | models |
|---|---|---|
| `options.dfy` | `Options` | the optional value used for NaN, absent attributes and unset current values |
| `variables.dfy` | `Variables` | the variable record and `parseVariables` |
| `substitution.dfy` | `Substitution` | `substituteVariables` as literal, global, left-to-right replacement |
| `reconcile.dfy` | `Reconcile` | the merge loop of `render`, and one full render (extract, merge, substitute) |
| `envelope.dfy` | `Envelope` | one animation frame of `triggerAttackDecay`, and a whole run over given frame times |
| `xml_format.dfy` | `XmlFormat` | `formatXml`: the tag-boundary break, the line split and join, and the indentation counter |

Modelling choices:

- **Numbers and text.**
  - `parseFloat` is a parameter `parse: string -> Option<real>`, where `None` stands for NaN.
  - The number-to-text conversion used by `String.prototype.replace` is a parameter
    `show: real -> string`.
  - Numbers are mathematical reals.
- **Attributes.** A declaration element is its attribute map. An absent key is the `null`
  that `getAttribute` returns.
- **The `||` defaults.** `parseFloat(x) || d` takes the default when the parse is NaN
  **or zero**. The model keeps this: `max="0"` gives a maximum of 100 (`ZeroMaxTakesDefault`).
  - A `type` or `label` attribute that is empty takes its default.
  - Any other `type` text is kept as written.
- **Placeholder replacement.** `new RegExp("\\{" + name + "\\}", "g")` is modelled as a
  literal search for `{name}`. Matches are leftmost and non-overlapping, and the scan
  resumes after each replacement. Properties that depend on names are stated for names
  without braces.
- **Placeholders.** `Token(name)` is the placeholder text `"{" + name + "}"`.
- **Current values.** `currentValue` is `Option<real>`, with `None` for `undefined`.
  `Resolved()` is the `currentValue !== undefined ? currentValue : value` choice made during
  substitution. What these definitions mean for a document is stated by
  `Substitution.ReplaceAllToken` and `Substitution.TokenReplacedInContext`.
- **Time.** The envelope takes the elapsed milliseconds as a natural number, so the clock is
  assumed monotone. A run of the animation is a sequence of frame times supplied by the
  caller, in place of `Date.now` and `requestAnimationFrame`.
- **Formatting.**
  - The global replace of `(>)(<)(\/*)` by `$1\r\n$2$3` puts a CRLF between every `>` that
    is directly followed by `<`. The slashes are written back unchanged, and a consumed
    match never ends in `>`, so no match is missed (`Expand`).
  - The three line classifiers are written out as predicates over characters. They follow
    JavaScript regular-expression semantics: `.` does not match a line terminator, and
    `\w` is `[A-Za-z0-9_]`.

Behaviour of the code that a reader might not expect, kept as written:

- **Duplicate names when merging.** `find` returns the first match
  (`src/index.js:189`), so when the previous state holds two entries with the same name,
  the *first* entry's current value is carried over (`Reconcile.DuplicatesTakeFirstValue`).
- **Duplicate names when substituting.** Variables are applied in list order, so the first
  listed variable with a name replaces its placeholders first. When no replacement text is
  able to form a placeholder — every replacement text is brace-free and occurs inside no
  listed name — a later variable with the same name finds nothing left to replace
  (`Substitution.LaterDuplicateIgnored`). Without that condition a later duplicate can
  still act on a placeholder that an earlier replacement created.
- **One-letter opening tags.** `/^<\w[^>]*[^/]>/` (`src/index.js:48`) needs a character
  between the tag name's first letter and `>`, so `<b>` or `<b>x</b>` does not count as an
  opening tag and the lines after it are not indented (`XmlFormat.ClassifierExamples`).
- **Unknown `type`.** `getAttribute("type") || 'slider'` (`src/variables.js:17`) keeps any
  non-empty `type` text verbatim; only a missing or empty attribute becomes `slider`.

## Model

| member | source | states |
|---|---|---|
| Variables.NumberAttr | src/variables.js:13-19 | `parseFloat(attr) \|\| d`: the parsed number when it is neither NaN nor zero, the default otherwise; a nonzero default never yields zero |
| Variables.ParsedAttr | src/variables.js:13-19 | `parseFloat(getAttribute(key))`: a missing attribute reads as NaN; what the number fields then hold is stated by `NumberAttr` and `MakeVariable` |
| Variables.TextAttr | src/variables.js:17-20 | `attr \|\| d` for text: the attribute when present and non-empty, the default otherwise |
| Variables.MakeVariable | src/variables.js:9-21 | a named element becomes a record whose fields follow the attributes with defaults 0, 0, 100, 1, "slider", 0.1, 0.5 and the name as label; max, step, attack and decay are never zero; no current value yet |
| Variables.ZeroMaxTakesDefault | src/variables.js:15 | an explicit `max="0"` is replaced by the default 100 |
| Variables.ParseVariables | src/variables.js:8-24 | one record per element with a non-empty name, each with a name, no current value and nonzero max/step/attack/decay |
| Variables.ParseVariablesAppend | src/variables.js:8-23 | extraction works element by element: extracting a concatenation is concatenating the extractions |
| Variables.ParseVariablesPosition | src/variables.js:8-23 | the i-th named element produces the record at the position given by the number of named elements before it, in document order |
| Variables.ParseVariablesNames | src/variables.js:9-12 | the extracted names are exactly the declared non-empty names, in document order |
| Substitution.ReplaceAll | src/variables.js:30-31 | `text.replace(/{name}/g, rep)` as a literal, leftmost, non-overlapping replace; its behaviour is stated by `ReplaceAllAbsent`, `ReplaceAllSplit`, `ReplaceAllToken`, `ReplaceAllOtherToken`, `ReplaceAllKeepsMiddle` and `ReplaceAllLeavesNoToken` |
| Substitution.Substitute | src/variables.js:27-34 | `substituteVariables`: one global replace per variable, in list order; its behaviour is stated by `SubstituteAppend`, `SubstituteWithoutBraces`, `SubstituteKeepsUnknownToken`, `TokenReplacedInContext`, `SubstituteLeavesNoTokens` and `LaterDuplicateIgnored` |
| Substitution.ReplaceAllAbsent | src/variables.js:30-31 | a global replace leaves text without the placeholder unchanged |
| Substitution.ReplaceAllSplit | src/variables.js:30-31 | replacement works piecewise: text can be cut before any `{` and the two parts replaced separately |
| Substitution.ReplaceAllToken | src/variables.js:30-31 | every occurrence of the placeholder becomes the replacement, and the text around it is replaced independently |
| Substitution.ReplaceAllOtherToken | src/variables.js:30-31 | a different variable's placeholder passes through a replace untouched |
| Substitution.ReplaceAllLeavesNoToken | src/variables.js:30-31 | for brace-free names and a brace-free replacement text that occurs inside neither name: after a global replace the placeholder no longer occurs, and no other placeholder appears that was not there already |
| Substitution.SubstituteAppend | src/variables.js:29-32 | substitution applies the variables one after another, in list order |
| Substitution.SubstituteWithoutBraces | src/variables.js:27-34 | text without `{` comes out unchanged |
| Substitution.SubstituteKeepsUnknownToken | src/variables.js:27-34 | a placeholder naming no listed variable stays in the output verbatim, and the text on each side is substituted independently |
| Substitution.UnknownTokenAlone | src/variables.js:27-34 | a lone placeholder for an undeclared name is returned as is |
| Substitution.LeadingTokenReplaced | src/variables.js:29-31 | a document that is exactly the first variable's placeholder becomes that variable's resolved value |
| Substitution.TokenTakesFirstMatch | src/variables.js:29-31 | a document that is exactly one placeholder becomes the resolved value of the first listed variable with that name, whatever the other replacement texts are |
| Substitution.ReplaceAllKeepsMiddle | src/variables.js:30-31 | a brace-free, non-empty text occurring inside no part of the name passes through a global replace unchanged, and no match crosses it |
| Substitution.SubstituteKeepsMiddle | src/variables.js:29-32 | such a text passes through the whole substitution unchanged, and the text on each side of it is substituted on its own |
| Substitution.TokenReplacedInContext | src/variables.js:27-34 | when every replacement text is brace-free and occurs inside no listed name, a placeholder anywhere in a document becomes the resolved value of the first listed variable with that name, and the text on each side is substituted on its own |
| Substitution.SubstituteLeavesNoTokens | src/variables.js:27-34 | when no replacement text can form a placeholder, no placeholder of a listed variable remains in the output |
| Substitution.LaterDuplicateIgnored | src/variables.js:29-32 | when every replacement text is brace-free and occurs inside no listed name, a later variable with an already listed name has no effect on the output |
| Substitution.ResidualTokenExample | src/variables.js:29-31 | without that condition a placeholder can remain: `{a{a5}}` with `a5` shown as `5` becomes `{a5}` |
| Reconcile.FindByName | src/index.js:189 | `find` by name: the index of the first entry with that name, and none exactly when the name is absent |
| Reconcile.Carry | src/index.js:189-194 | the body of the merge loop for one parsed variable; `Reconcile` states its effect on every entry, and `SetValueSurvivesEdit` and `DuplicatesTakeFirstValue` state its consequences |
| Reconcile.Reconcile | src/index.js:187-196 | same records in the same order, with only the current value set: copied from the first previous entry with the name, or seeded from the declared value when there is none |
| Reconcile.FirstRenderSeedsDeclaredValues | src/index.js:192-194 | with no previous state, every variable starts at its declared value |
| Reconcile.SetValueSurvivesEdit | src/index.js:189-191 | a value set on the first live variable with that name (slider or envelope) is carried into the next render of a document that still declares the name; a value set on a later duplicate is not, since `find` returns the first match |
| Reconcile.ReconcileStable | src/index.js:187-196 | re-rendering unchanged declarations with distinct names changes nothing |
| Reconcile.DuplicatesTakeFirstValue | src/index.js:189 | when a name is declared twice, the next render gives the later declaration the value of the first |
| Reconcile.Render | src/index.js:183-200 | the new state holds exactly the declared names and is the merge of the extraction; if every previous entry had a current value, every new entry has one; the output is the text substituted with that state |
| Reconcile.WidthDeclarationParses | src/variables.js:8-21 | the declaration `name="w" value="150" min="20" max="300"` yields one variable `w` with value 150 |
| Reconcile.RenderWidthExample | src/index.js:183-200 | a first render turns `width="{w}"` into the text of 150 |
| Reconcile.RenderKeepsCurrentExample | src/index.js:188-191 | a re-render keeps the slider value 200 of an already live `w` |
| Envelope.SweepOf | src/index.js:87-90 | the sweep of a variable: attack and decay converted from seconds to milliseconds; `SweepEndsAfterDeclaredTime` states the resulting stop time |
| Envelope.Advance | src/index.js:96-108 | the run stops exactly when the elapsed time has passed both attack and attack plus decay, and a stopped run shows `min` |
| Envelope.SweepEndsAfterDeclaredTime | src/index.js:87-88 | with positive times, the run stops exactly once `1000 * (attack + decay)` ms have passed |
| Envelope.SweepStartsAtMin | src/index.js:96-99 | at time zero with a positive attack, the value is `min` and the run continues |
| Envelope.DecayStartsAtMax | src/index.js:100-103 | at the end of the attack, with a positive decay, the value is `max` |
| Envelope.SweepStaysInRange | src/index.js:96-106 | when `min <= max`, every frame's value lies in `[min, max]` |
| Envelope.AttackRises | src/index.js:96-99 | during the attack the value never falls, and rises strictly when `min < max` |
| Envelope.DecayFalls | src/index.js:100-103 | during the decay the value never rises, and falls strictly when `min < max` |
| Envelope.StrokeTriggerExample | src/index.js:85-108 | min 5, max 30, attack 0.1 s, decay 0.8 s: 17.5 at 50 ms and at 500 ms, then 5 and stopped at 1000 ms |
| Envelope.RunTrigger | src/index.js:85-113 | over a sequence of frame times: each rendered value is that frame's envelope value; the run stops at the first finished frame and ends at `min`; only the triggered variable's current value changes |
| XmlFormat.Expand | src/index.js:37-40 | the replace of `(>)(<)(\/*)` by `$1\r\n$2$3`: keeps the first character; `ExpandLeavesNoBoundary`, `ExpandLength`, `ExpandAppend` and `ExpandWithoutBoundary` state the rest |
| XmlFormat.ExpandLeavesNoBoundary | src/index.js:36-40 | after the break is inserted, no `>` is directly followed by `<` |
| XmlFormat.ExpandLength | src/index.js:37-40 | exactly one two-character break is added per `>` `<` pair |
| XmlFormat.ExpandAppend | src/index.js:37-40 | breaking text in two parts is breaking each part, plus one break where the seam is a `>` `<` pair |
| XmlFormat.ExpandWithoutBoundary | src/index.js:37-40 | text without adjacent tags is unchanged |
| XmlFormat.SplitLines | src/index.js:42 | `split("\r\n")`: at least one piece, and no piece contains a CRLF |
| XmlFormat.JoinLines | src/index.js:57 | `join('\r\n')`: its inverse relation with `SplitLines` is stated by `JoinSplit` and `SplitJoin` |
| XmlFormat.JoinSplit | src/index.js:42-57 | joining the split pieces with CRLF gives back the text |
| XmlFormat.SplitJoin | src/index.js:42-57 | splitting a CRLF-join of CRLF-free pieces gives back the pieces |
| XmlFormat.IsWordChar | src/index.js:44-48 | `\w`: an ASCII letter, digit or underscore |
| XmlFormat.IsLineTerminator | src/index.js:44-48 | the characters `.` does not match: line feed, carriage return, line and paragraph separator |
| XmlFormat.EndsWithClosingTag | src/index.js:44 | `/.+<\/\w[^>]*>$/`: at least one non-terminator character, then a closing tag whose only `>` is the last character of the line |
| XmlFormat.StartsWithClosingTag | src/index.js:46 | `/^<\/\w/`: the line starts with `</` and a word character |
| XmlFormat.IsOpeningTag | src/index.js:48 | `/^<\w[^>]*[^/]>.*$/`: `<`, a word character, then a first `>` preceded by a character other than `/` and by at least one character after the word character, and no line terminator after it |
| XmlFormat.ClassifierExamples | src/index.js:44-48 | `<b>x</b>` ends with a closing tag and `</b>` and `<b>` do not; `</b>` starts with one and `<b>` and `</>` do not; `<ab>` and `<ab>x</ab>` are opening tags, while `<c/>`, `</ab>`, and the one-letter `<b>` and `<b>x</b>` are not |
| XmlFormat.StepPad | src/index.js:43-54 | per line: a line ending in a closing tag keeps the counter and sits at it; otherwise a line starting with a closing tag lowers a positive counter by one and sits at the lowered level; otherwise an opening tag raises the counter by one and sits at the old level; any other line keeps the counter and sits at it. A line never both starts with a closing tag and is an opening tag, so the order of the two middle tests does not matter |
| XmlFormat.FormatLines | src/index.js:42-57 | one output line per piece, each being the piece behind an even number of spaces |
| XmlFormat.OpeningLineIndentsNext | src/index.js:43-56 | the line after an opening-tag line that does not end in a closing tag is indented two spaces deeper, unless it is a closing tag (not ending in another), which sits at the opening tag's level |
| XmlFormat.FormatThreeLines | src/index.js:42-56 | the counter is threaded through the lines: each of three lines is indented to the depth of its own step, taken from the counter the line before left |
| XmlFormat.FormatNestedExample | src/index.js:42-56 | the lines `<ab>`, `<c/>`, `</ab>` are indented as `<ab>`, `  <c/>`, `</ab>` |
| XmlFormat.FormatDepthBound | src/index.js:42-57 | a line's indentation is at most two spaces per opening tag seen on the lines before it, plus the starting level |
| XmlFormat.FormatXml | src/index.js:34-58 | `formatXml`: break, split, indent, join; `FormatXmlLines` states what its lines are |
| XmlFormat.FormatXmlLines | src/index.js:34-58 | the formatted text splits into as many lines as the broken-up input, each its piece indented by spaces alone |

## Left out

- XML parsing: `DOMParser` and the namespace lookup in `src/variables.js:3-6`. A
  declaration element is given as its attribute map, and the document's declarations as a
  list of those maps in document order. Malformed markup is not modelled.
- `parseFloat` and the number-to-text conversion: these are parameters of the model.
- IEEE-754 arithmetic: NaN is modelled only as "no number"; infinities and rounding are not
  modelled, so the envelope values are exact reals.
- Regular-expression metacharacters in names: a name containing `.`, `*`, `(` and the like
  makes the source's pattern match more or other text, or throw. The model treats every name as
  literal text. Likewise `$&`, `$1` and other replacement patterns in the value text are
  not interpreted.
- The clock and scheduling: `Date.now`, `requestAnimationFrame`, and the interleaving of
  a second trigger, a slider or an edit with a running animation. The animation holds a
  reference to a record that a re-render may replace; this aliasing is not modelled.
- `renderSvg` writing to `innerHTML` (`src/index.js:82`), and `updateControls`
  (`src/index.js:115-181`), which builds the slider and button widgets.
- The editor widget, its language and completion registration, and the formatting provider
  that calls `formatXml` (`src/index.js:1-33`, `src/index.js:60-73`).
  `./completion-provider` is not part of this model.
- Firebase loading and saving, random document identifiers, and upload and download
  (`src/index.js:206-288`). `./firebase` is not part of this model.
- The split-pane layout and tooltips.
- Substitution.SubstituteLeavesNoTokens: proved only for brace-free names and
  replacement texts that occur in no listed name. The source does not guarantee that no
  placeholder remains in general; `ResidualTokenExample` shows the counterexample.
- Substitution.TokenReplacedInContext: proved only when every replacement text is
  brace-free and occurs inside no listed name. Otherwise a replacement text can complete or
  split a placeholder next to it, and the output depends on the neighbouring text.
- Substitution.ReplaceAllToken: stated for names without braces, because the model
  treats names as literal text.
- Envelope.RunTrigger: the frame times are taken as given; whether a browser actually
  delivers them is outside the model.
