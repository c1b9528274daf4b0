# HTMLGenerator in Dafny

A model of `HTMLGenerator.php`, a small PHP library that builds HTML markup
as strings. The library has no state. Everything goes through two
functions:

- html_attributes serialises an attribute array as `key="value" ` pairs, in
  insertion order.
- html_element wraps a tag around those pairs and some content, or writes
  the self-closing form.

On top of these sit:

- one-line wrappers that fix the tag (html, header, body, footer, p, div,
  form, input);
- html_a, which first assigns the `href` key;
- html_heading;
- html_list, html_select and html_table, which flatten their structured
  argument into one content string before calling html_element.

The modules follow that structure:

- `Text` holds the ordered fold `Concat`. It is the value built by the
  `.=` loops of html_attributes, html_list, html_select, html_table's header
  and cell loops. html_table's row loop is different: it carries `$cells`
  from row to row, so what it builds is `Tables.BodyRows`. The module also has string splitting and PHP's
  decimal rendering of integers.
- `Attributes` holds html_attributes and the keyed assignment
  `$attributes['href'] = …`.
- `Element` holds html_element.
- `Tags` holds the wrappers, html_a and html_heading.
- `Lists`, `Selects` and `Tables` hold html_list, html_select and
  html_table.
- `Parse` holds a reader for the markup the builder writes. It is not part
  of the library. It is the inverse the builder is proved lossless
  against, under stated conditions. It also shows how a value containing a
  quote breaks the markup, because nothing is escaped.

The round-trip lemmas hold for well-formed input, defined in `Parse`:
- `TagOk`: the tag has no space.
- `KeyOk`: a key has no `=` and does not start with `>` or a space.
- `ValueOk`: a value has no `"`.
- `AttributesOk`: every pair meets `KeyOk` and `ValueOk`.

The functions with loops are Dafny methods: html_attributes, html_list,
html_select and html_table. Each method is proved equal to a
specification function. The properties are proved about those functions.

A PHP argument that `is_array` tests is modelled as `Arg<T>`. It is either
`Arr(items)`, which is an insertion-ordered array, or `Scalar(text)`, which
is anything else in its string form. Attribute arrays are sequences of
(key, value) pairs.

A self-closing element with attributes has two spaces before `/>`:
`<input type="text"  />`. The attribute text already ends in a space, and
the template adds another one (HTMLGenerator.php:537). `Element.ElementExamples`
states that exact output.

## Model

| member | source | states |
|---|---|---|
| Attributes.HtmlAttributes | HTMLGenerator.php:494-510 | the accumulator loop returns the in-order concatenation of `key="value" ` for every pair, and "" for a non-array argument |
| Attributes.AttributesEmpty | HTMLGenerator.php:499-509 | a non-array argument and the empty array both serialise to "" |
| Attributes.AttributesLength | HTMLGenerator.php:503-506 | the serialised length is the keys' and values' lengths plus four markup characters per pair |
| Attributes.AttributesInOrder | HTMLGenerator.php:503-506 | pair i appears verbatim as `key="value" `, after the text of pairs 0..i-1 and before the text of the rest |
| Attributes.AttributesAppend | HTMLGenerator.php:503-506 | serialising two arrays one after the other gives the concatenation of their serialisations |
| Attributes.Assign | HTMLGenerator.php:158 | a keyed assignment keeps the keys distinct, replaces an existing key's value in its own position, and appends a new key last |
| Attributes.AssignExisting | HTMLGenerator.php:158 | assigning to the key at position i changes that entry alone |
| Attributes.ReplacedText | HTMLGenerator.php:158 | after replacing pair i, the serialisation differs only in that pair's place |
| Attributes.AssignLookup | HTMLGenerator.php:158 | after the assignment, the key reads back the new value and every other key reads back its old value |
| Element.HtmlElement | HTMLGenerator.php:531-543 | html_element itself; it has no ensures of its own. Parse.ElementSplit states its exact output text for both forms, Element.ElementLayout and Element.ElementOpening its layout, and Parse.ElementRoundTrip that nothing is lost |
| Element.ElementLayout | HTMLGenerator.php:531-543 | exact lengths of both forms; both open with `<tag `; with no attributes they are `<tag >content</tag>` and `<tag  />` |
| Element.ElementOpening | HTMLGenerator.php:533-542 | every element starts with `<`, the tag and a space, followed directly by the serialised attributes |
| Element.ElementNonArrayAttributes | HTMLGenerator.php:533 | a non-array attribute argument builds the same element as no attributes |
| Element.SelfClosingIgnoresContent | HTMLGenerator.php:535-538 | the self-closing form does not depend on the content |
| Element.ElementExamples | HTMLGenerator.php:535-542 | an empty div is `<div ></div>`; a text input is `<input type="text"  />` |
| Tags.HtmlHtml | HTMLGenerator.php:46-49 | the output is `<html `, the attributes, `>`, the content and `</html>` |
| Tags.HtmlHeader | HTMLGenerator.php:73-76 | the same layout with tag `header` |
| Tags.HtmlBody | HTMLGenerator.php:100-103 | the same layout with tag `body` |
| Tags.HtmlFooter | HTMLGenerator.php:127-130 | the same layout with tag `footer` |
| Tags.HtmlP | HTMLGenerator.php:186-189 | the same layout with tag `p` |
| Tags.HtmlDiv | HTMLGenerator.php:249-252 | the same layout with tag `div` |
| Tags.HtmlForm | HTMLGenerator.php:406-409 | the same layout with tag `form` |
| Tags.HtmlInput | HTMLGenerator.php:432-435 | always the self-closing form: `<input `, the attributes, ` />` |
| Tags.HtmlA | HTMLGenerator.php:156-161 | the anchor opens with `<a ` and ends with `</a>`, and is as long as its serialised attributes, `href` included, plus its content and eight characters of markup; where the `href` pair goes is stated by Tags.AnchorAppendsHref and Tags.AnchorReplacesHref |
| Tags.AnchorAppendsHref | HTMLGenerator.php:156-161 | without an `href` key, the `href` pair is serialised after all the caller's attributes |
| Tags.AnchorReplacesHref | HTMLGenerator.php:156-161 | with an `href` key at position i, the new `href` pair takes that position and every other pair is unchanged around it |
| Tags.HeadingTag | HTMLGenerator.php:221 | the computed tag is `h` and one digit 1..6: `h` plus the level in range, `h1` otherwise |
| Tags.HtmlHeading | HTMLGenerator.php:216-224 | as written, the element's tag is the decimal level itself, so the output never starts with `<h`; it starts with `<-` exactly for a negative level |
| Tags.HtmlHeadingIntended | HTMLGenerator.php:209-221 | the intended heading is always an `h1`..`h6` element: the level's element when it lies in 1..6, otherwise `h1` |
| Tags.HeadingIgnoresClamp | HTMLGenerator.php:219-223 | level 3 gives `<3 >x</3>` rather than `<h3 >x</h3>`; level 9 gives `<9 >x</9>` rather than `<h1 >x</h1>` |
| Text.IntToDecimal | HTMLGenerator.php:221-223 | the rendering of an integer is non-empty digits, with a leading `-` exactly for a negative value and no leading zero except for 0 itself |
| Text.IntToDecimalRoundTrip | HTMLGenerator.php:221-223 | the decimal rendering reads back as the same integer |
| Lists.HtmlList | HTMLGenerator.php:283-302 | the loop returns a `ol`/`ul` element whose content is one `li` per item in order, with no items for a non-array list |
| Lists.ListKind | HTMLGenerator.php:286 | the list opens with `<ol ` exactly when ordered is true, otherwise `<ul `, followed by the serialised attributes |
| Lists.ListItemAt | HTMLGenerator.php:293-299 | item i becomes `<li >item</li>`, between the elements of the items before and after it |
| Lists.ListItemsAppend | HTMLGenerator.php:295-298 | the items of two lists one after the other give their `li` elements one after the other |
| Lists.ListNonArray | HTMLGenerator.php:293 | a non-array list gives an empty list element |
| Lists.ListExample | HTMLGenerator.php:262-271 | the documented list of red, green and blue with no attributes is `<ul ><li >red</li><li >green</li><li >blue</li></ul>` |
| Selects.HtmlSelect | HTMLGenerator.php:464-480 | the loop returns a `select` holding one `option` per entry in order, with no options for a non-array argument |
| Selects.OptionLayout | HTMLGenerator.php:475 | each option is `<option value="key" >value</option>` |
| Selects.OptionAt | HTMLGenerator.php:471-477 | entry i becomes its option, between the options of the entries before and after it |
| Selects.SelectNonArray | HTMLGenerator.php:471 | a non-array options argument gives an empty select |
| Tables.HtmlTable | HTMLGenerator.php:335-382 | the nested loops return the table of the header row followed by the body rows, carrying `$cells` into scalar rows as the source does |
| Tables.TableLayout | HTMLGenerator.php:378-381 | the table is `<table `, the attributes, `>`, the header row, the body rows and `</table>` |
| Tables.HeaderRowPresent | HTMLGenerator.php:340-352 | a header row exists exactly for a non-empty header array; it is then `<tr >`, one `th` per header in order, `</tr>` |
| Tables.ArrayRowsStandAlone | HTMLGenerator.php:359-375 | when every row is an array, each row yields one `tr` holding its own cells, in order |
| Tables.ArrayRowResets | HTMLGenerator.php:361-368 | an array row resets `$cells` to exactly its own `td` cells |
| Tables.ScalarRowCarries | HTMLGenerator.php:370-375 | a scalar row's `tr` holds the cells left over from the previous rows, followed by its own `td` |
| Tables.CellsAfterScalars | HTMLGenerator.php:359-375 | after any run of scalar rows, `$cells` holds the cells it had before, then one `td` per scalar |
| Tables.CarryOverExample | HTMLGenerator.php:359-375 | the rows `["a"]`, then `"b"`, render as `<tr>` a, then `<tr>` a b; this is not the independent rendering of each row |
| Tables.TableTextIntended | HTMLGenerator.php:359-375 | the corrected html_table: the header row, then each row as its own `tr`, inside the `table` element; row by row what that means is stated by Tables.IntendedRowAt and Tables.IntendedRowsCompose |
| Tables.IntendedRowAt | HTMLGenerator.php:359-375 | in the corrected table, row i is `<tr >`, its own cells, `</tr>`, whatever rows surround it |
| Tables.IntendedRowsCompose | HTMLGenerator.php:359-375 | in the corrected table, the body of two row sequences is their bodies one after the other |
| Tables.IntendedAgreesOnArrayRows | HTMLGenerator.php:359-375 | the corrected table and the one as written agree when every row is an array |
| Parse.ElementSplit | HTMLGenerator.php:535-542 | an element is `<`, the tag, a space, the serialised attributes, then ` />` when self-closing, otherwise `>`, the content and `</tag>` |
| Parse.AttributesRoundTrip | HTMLGenerator.php:494-510 | when every pair meets `KeyOk` and `ValueOk` and the text after the pairs starts with `>` or a space, the serialised pairs read back as the same pairs in the same order, followed by that text |
| Parse.ElementRoundTrip | HTMLGenerator.php:531-543 | when the tag meets `TagOk` and the pairs meet `AttributesOk`, an element reads back as its tag, its attribute pairs, its content (none when self-closing) and its form |
| Parse.ElementInjective | HTMLGenerator.php:531-543 | two builds whose tags meet `TagOk` and whose pairs meet `AttributesOk` and that give the same text had the same tag, pairs and form, and the same content unless self-closing |
| Parse.WrappersRoundTrip | HTMLGenerator.php:46-435 | when the pairs meet `AttributesOk`, each fixed-tag wrapper's output reads back as an element of that tag with the given content and attributes; html_input's as a self-closing input |
| Parse.PairRead | HTMLGenerator.php:505 | a pair meeting `KeyOk` and `ValueOk` reads back as that key and value, and reading continues after its trailing space |
| Parse.QuotedPairUnreadable | HTMLGenerator.php:505 | for a key meeting `KeyOk`, a value whose first quote ends the value or is followed by anything other than a space no longer reads back as a pair |
| Parse.UnreadableAfterPairs | HTMLGenerator.php:503-506 | pairs meeting `AttributesOk` placed in front of unreadable attribute text leave it unreadable |
| Parse.QuoteInValueBreaksMarkup | HTMLGenerator.php:503-506 | when the tag meets `TagOk`, such a value in any attribute, after pairs meeting `AttributesOk`, makes the element as a whole no longer read back |
| Parse.QuoteInjectsAttribute | HTMLGenerator.php:505 | a value holding `" b="y` gives the same markup as a second attribute `b="y"`, and reads back as two attributes |
| Parse.QuoteExample | HTMLGenerator.php:505 | `<p title="a"b" ></p>` does not read back as an element |

## Left out

- PHP type juggling is not modelled. Items, cells, values and content are
  strings, and keys are strings. Integer keys are written as their decimal
  text. An array nested where a string is expected is not modelled.
- Tags.HtmlHeading: the level is a Dafny `int`. `intval` applied to a string,
  a float or NULL is not modelled.
- Element.HtmlElement: the flag `$empty`, and `$ordered` in html_list, are
  tested with `=== TRUE`. Here they are `bool`. A truthy non-boolean value
  takes the false branch in PHP, and that case is not represented.
- Tags.HtmlA: the attributes are always an array. PHP's keyed assignment
  on a string or other scalar `$attributes` is not modelled.
- Default parameter values are not modelled. Callers pass every argument.
- Undefined-variable notices are not modelled. `$cells` and
  `$concatenated_cells` in html_table start out undefined, and PHP reads
  them as "". The model starts both at "".
- How callers load the library (`require_once` of HTMLGenerator.php, shown in
  its header comment) is outside this model.
- Parse is a reader written for the proofs. The library has no parser.
- No escaping exists in the library, so none is modelled. Two lemmas state
  the consequences. Parse.QuoteInValueBreaksMarkup covers a value whose
  first quote ends the value or is followed by anything other than a space,
  in any attribute after well-formed ones: the element no longer reads back.
  Parse.QuoteInjectsAttribute covers one value that holds a quote followed
  by a space, `x" b="y`: an extra attribute is injected. Quotes followed by
  a space are stated only for that example, not for every such value.

## Findings

| source | as written | input that shows it | evidently intended | confidence | as-written member | corrected member |
|---|---|---|---|---|---|---|
| HTMLGenerator.php:221-223 | html_heading computes the clamped tag `$heading` and then passes `$level` to html_element | level 3, content "x", no attributes: `<3 >x</3>` | `<h3 >x</h3>`, and `h1` for a level outside 1..6 | not executed | Tags.HeadingIgnoresClamp | Tags.HtmlHeadingIntended |
| HTMLGenerator.php:359-375 | `$cells` is reset only for array rows, so a scalar row appends its `td` to the previous row's cells | rows `[["a"], "b"]`: the second `tr` holds the cells a and b | each row rendered on its own, a scalar row as a single `td` | not executed | Tables.CarryOverExample | Tables.TableTextIntended |
