# xsd-generator core, modelled in Dafny

NativeScript's xsd-generator reads the TypeScript declarations of the UI
framework and writes an XML schema for its markup. In the pipeline:

- a file walker turns class declarations into `Class` records (name,
  fully-qualified name, comments, base-class chain, properties);
- class filters keep the visual components;
- a tree collects the survivors and rejects duplicates;
- a JSON-to-XSD writer emits the following, through an xml-writer:
  - for each class, an attribute group, a complex type and an element;
  - a simple type for every validator the attributes used;
  - a group of all components.

Validators come from a factory that creates them lazily, caches them under
two keys and remembers the order in which they were first registered.

This project models that middle part as pure functions over immutable data,
with one module per source file:

| module | file | models |
|---|---|---|
| `LangElements` | `lang-elements.dfy` | `Type.name`, the `Class` constructor, `kebabName`, `Tree.addClass` (lib/lang-elements.ts) |
| `Globals` | `globals.dfy` | `Utils.ensureStartingUCase` / `ensureStartingLCase` (lib/globals.ts) |
| `XsdElements` | `xsd-elements.dfy` | restrictions, validators, the six built-in validators and the `ValidatorFactory` (lib/xsd-elements.ts) |
| `JsonXsdWriter` | `json-xsd-writer.dfy` | `RestrictionWriter`, `ValidatorWriter`, `ClassWriter` and `JsonXsdWriter` (lib/json-xsd-writer.ts) |
| `FileWalker` | `file-walker.dfy` | the decisions of lib/file-walker.ts, with the compiler replaced by the declarations it reports |
| `ViewExtendersFilter` | `view-extenders-filter.dfy` | lib/view-extenders-filter.ts |
| `ActionBarFilter` | `actionbar-filter.dfy` | lib/actionbar-filter.ts |

Four supporting modules:

- `Wrappers`: `Option`, `Result` and a short-circuiting map.
- `Errors`: the four fatal errors and their messages.
- `Text`: ASCII case mapping, `trim`, `join`, prefixes and suffixes.
- `Seqs`: `Array.prototype.filter`, and insertion-ordered de-duplication.

The `Xml` module models the xml-writer as an append-only log of calls, each
`StartElement(name)`, `WriteAttribute(key, value)` or `EndElement`. Every writer
is modelled as the log it produces, in the order the source makes the calls.
Each log is then proved equal to `Serialize` of a declarative element tree
(`RestrictionNode`, `ValidatorNode`, `ClassNodes`, `SchemaNode`), so it is
balanced. `endDocument` closes whatever is still open.

The factory is the record `Factory(registered, index, order)`:

- `registered`: the cache by type full name;
- `index`: the cache by validator key;
- `order`: the insertion order of the index, which is the order of
  `getRegisteredValidators`.

Every writer that looks validators up takes a factory and returns the factory
it leaves behind (`Written`). A thrown error becomes an `Err` value, and none
is ever caught.

The file walker's inputs are the declarations the TypeScript compiler would
report:

- `Decl`: kind, short name, full name and heritage clauses;
- `TypeNode`: the declarations the type resolves to, its syntactic shape and
  its source text;
- `ClassSource`: a class declaration with its comments and members.

A base class is part of the declaration that names it, so a base-class chain
is finite by construction.

Where the code and its design description disagree, the model follows the
code:

- **Date tie-break.** The description says an ambiguous type is accepted
  when one of two candidates is the built-in date type. The code accepts any
  number of candidates as long as the *first* is named `Date`, and then takes
  the second (lib/file-walker.ts:241-246; `FileWalker.DateTieBreakExamples`).
- **Static properties.** The description says only instance properties
  become attributes. The code keeps every property declaration, static ones
  included (lib/file-walker.ts:126).
- **Ambiguity error message.** The description says it names the offending
  type. The code's message does not (lib/file-walker.ts:245).
- **Colour pattern.** The literal in lib/xsd-elements.ts:327 is written with
  `\d`. The language's string escapes turn that into `d`, so the schema
  receives `#ddd(ddd)?`, and that is the value modelled.

## Model

| member | source | states |
|---|---|---|
| Globals.EnsureStartingUCase | lib/globals.ts:2-4 | For a non-empty string: same length, same characters after the first; the first is not a lower-case letter any more, a lower-case first letter becomes its upper-case partner, and a string not starting lower-case is returned unchanged |
| Globals.EnsureStartingLCase | lib/globals.ts:5-7 | The lower-case mirror of the above |
| Globals.UCaseIdempotent | lib/globals.ts:2-4 | Applying `ensureStartingUCase` twice is applying it once |
| Globals.LCaseIdempotent | lib/globals.ts:5-7 | Applying `ensureStartingLCase` twice is applying it once |
| Globals.CaseRoundTrip | lib/globals.ts:2-7 | Lower-casing then upper-casing the first letter restores a string that starts upper-case, and the reverse for one that starts lower-case |
| Globals.CaseExamples | tests/utils-tests.ts:9-24 | "something" becomes "Something" and back; an already-right first letter is kept |
| Text.Lower | lib/lang-elements.ts:75 | `toLowerCase` keeps the length and maps each character by the ASCII lower-case mapping |
| Text.Trim | lib/file-walker.ts:141 | `trim` returns the slice that has only whitespace before and after it, and neither starts nor ends with whitespace |
| LangElements.GetName | lib/lang-elements.ts:20-34 | Absent exactly when the full name is absent; "." gives "."; a dot-free name is returned unchanged; otherwise, with no line terminator, the result is the last dot-separated segment of the name after one trailing dot is stripped |
| LangElements.RemoveThroughLastDot | lib/lang-elements.ts:33 | The regular-expression replacement leaves the last dot-free segment when there is no line terminator, and leaves a dot-free string unchanged |
| LangElements.NameOfQualified | lib/lang-elements.ts:30-33 | `p.n` and `p.n.` both have the name `n` when `n` holds no dot and nothing holds a line terminator |
| LangElements.NameOfSegment | lib/lang-elements.ts:26-33 | Any last segment of the name with a trailing dot stripped is the name, so the name is unique |
| LangElements.NameSpecialCases | tests/typetests.ts:9-38 | Absent gives absent, "." gives ".", "" gives "", and a dot-free name is itself |
| LangElements.NameDottedExamples | tests/typetests.ts:39-50 | "a.b.C" and "a.b.C." both give "C" |
| LangElements.NewClass | lib/lang-elements.ts:62-68 | The constructor keeps the name, full name and comments; it starts with no properties; an absent base list becomes the empty one |
| LangElements.SplitBeforeUpper | lib/lang-elements.ts:75 | `split(/(?=[A-Z])/)`: the pieces put back together give the name; every piece after the first starts with an upper-case letter and no piece holds one past its first character, so a cut falls exactly before each upper-case letter past index 0; a non-empty name gives no empty piece and "" gives [""] |
| LangElements.ChunksArePieces | lib/lang-elements.ts:75 | The pieces of a non-empty name are non-empty and rejoin to the name; each piece after the first begins with an upper-case letter and holds no other |
| LangElements.KebabNameIsHyphenated | lib/lang-elements.ts:74-76 | `LangElements.KebabName` (split before upper-case letters, join with "-", lower-case) equals the reference spelling: the name lower-cased with a hyphen before every upper-case letter after index 0 |
| LangElements.KebabNameNoLeadingHyphen | lib/lang-elements.ts:74-76 | The kebab name of a non-empty name starts with the name's first character lower-cased, never with a hyphen |
| LangElements.HyphenatedConcat | lib/lang-elements.ts:75 | Cutting a name before an upper-case letter cuts the reference spelling at exactly one hyphen |
| LangElements.KebabNameListView | lib/lang-elements.ts:74-76 | "ListView" becomes "list-view" |
| LangElements.KebabNameABC | lib/lang-elements.ts:74-76 | "ABC" becomes "a-b-c" |
| LangElements.AddClass | lib/lang-elements.ts:108-116 | Fails with the duplicate-class error exactly when the full name is already present (no tree is produced, so the caller's is unchanged); otherwise appends exactly that class at the end and keeps full names pairwise distinct |
| LangElements.AddClassExample | tests/file-walker-tests.ts:123-132 | Two distinct full names are accepted and a third reusing the first is refused with the duplicate error |
| Seqs.Filter | lib/view-extenders-filter.ts:10 | `Array.prototype.filter`: every element of the result passes the test, and each element occurs in the result exactly as often as in the input when it passes and not at all otherwise |
| Seqs.FilterIsSubsequence | lib/view-extenders-filter.ts:10 | `filter` returns an order-preserving subsequence of its input |
| Seqs.FilterIdempotent | lib/view-extenders-filter.ts:10 | Filtering twice with one predicate is filtering once |
| Seqs.FilterAppend | lib/file-walker.ts:251-259 | Filtering distributes over concatenation |
| Seqs.Dedup | lib/xsd-elements.ts:43 | The keys of a map after a run of insertions: no key twice, every inserted key present, nothing else |
| Seqs.DedupSnoc | lib/xsd-elements.ts:43 | Inserting a key appends it to the map's key order unless it is already present, which leaves the order unchanged |
| Seqs.DedupDedup | lib/xsd-elements.ts:43 | Inserting keys into a map that already holds some gives the same order as inserting all of them from scratch |
| Wrappers.MapAll | lib/file-walker.ts:101-117 | A loop whose body may throw: succeeds exactly when every step does, then holds each step's value in order; otherwise raises the error of the first failing step |
| Xml.SerializeBalanced | customtypings/xml-writer/xml-writer.d.ts:3-9 | The calls that write any element tree never close more elements than they opened, and close all they open |
| Xml.EndDocument | lib/json-xsd-writer.ts:27 | `endDocument` extends the log with closes only, and the result is balanced |
| Xml.EndDocumentClosesLast | lib/json-xsd-writer.ts:16-27 | When one close balances the log, `endDocument` adds exactly that close |
| XsdElements.ValidatorName | lib/xsd-elements.ts:129-132 | The name is `ensureStartingUCase` of the validated type's name followed by "Validator": its length is the name's plus nine, its first character is not lower case, and the rest is the name's |
| XsdElements.ValidatorKey | lib/xsd-elements.ts:52-78 | Every type the mapping accepts maps to one of the six index keys |
| XsdElements.BuiltInName | lib/xsd-elements.ts:129-132 | Each built-in validator's name: "NumberValidator", "BindingValidator", "ColorValidator", "BooleanValidator", "StringValidator", and "LayoutValidator" for the one indexed as "LayoutNamesValidator" |
| XsdElements.LayoutNamesName | lib/xsd-elements.ts:174-179 | The layout validator's type name is "Layout", so its name is "LayoutValidator" |
| XsdElements.ColorName | lib/xsd-elements.ts:181-328 | The colour validator is named "ColorValidator" |
| XsdElements.KeyNamesDistinct | lib/xsd-elements.ts:52-78 | Distinct index keys give distinct schema names |
| XsdElements.BuiltInUnions | lib/xsd-elements.ts:148-179 | The binding validator alone has no union members; every other built-in unions with exactly "BindingValidator"; each has a restriction |
| XsdElements.BuiltInInjective | lib/xsd-elements.ts:148-179 | Distinct index keys stand for distinct validators |
| XsdElements.RetrieveValidator | lib/xsd-elements.ts:39-45 | Returns the built-in validator for the key; a hit changes nothing, a miss adds it to the index and appends the key to the order |
| XsdElements.InsertKeepsConsistent | lib/xsd-elements.ts:43 | Caching a new built-in under its own key keeps both caches and the order consistent and only extends them |
| XsdElements.CreateValidator | lib/xsd-elements.ts:52-79 | An unmapped type raises "No validator" and changes nothing; a mapped type yields its key's built-in validator through the index |
| XsdElements.GetValidator | lib/xsd-elements.ts:17-25 | Succeeds exactly for mapped types. On failure both caches are unchanged and the error names the type. On success the type is registered under its key's validator; exactly that name is added; the index and order grow as the key requires; a registered type changes nothing |
| XsdElements.CacheCreated | lib/xsd-elements.ts:19-20 | Registering the created validator under the type's full name keeps the factory consistent |
| XsdElements.NewFactory | lib/xsd-elements.ts:9-15 | The constructor registers exactly the binding validator, first |
| XsdElements.GetRegisteredValidators | lib/xsd-elements.ts:27-33 | The index's validators in first-registration order; every registered validator appears; none twice; the binding validator first in a constructed factory |
| XsdElements.GetValidatorKeepsValid | lib/xsd-elements.ts:17-25 | Lookups keep the binding validator registered and first |
| XsdElements.GetValidatorIdempotent | lib/xsd-elements.ts:17-25 | Repeating a lookup returns the same answer and leaves the factory as the first lookup left it |
| XsdElements.SharedKeyRegisteredOnce | lib/xsd-elements.ts:64-75 | Two types sharing a key share one validator: the second lookup returns the same one and leaves the index and order unchanged |
| XsdElements.RegisteredNamesDistinct | lib/xsd-elements.ts:27-33 | The registered validators have pairwise distinct names, so the schema declares each simple type once |
| XsdElements.UnmappedTypeExample | lib/xsd-elements.ts:76-77 | Looking up `any` raises "No validator for type any!" and caches nothing |
| XsdElements.StringLookupExample | tests/validator-factory-tests.ts:14-19 | A fresh factory answers `string` with the validator named "StringValidator", registered after the binding validator |
| XsdElements.StringLookupAfterBinding | lib/xsd-elements.ts:17-25 | From a factory holding only the binding validator, `string` registers the string validator second |
| XsdElements.FreshFactoryExample | tests/full-extraction-tests.ts:53-62 | A fresh factory lists exactly one validator, named "BindingValidator" |
| JsonXsdWriter.WriteRestriction | lib/json-xsd-writer.ts:201-227 | A null restriction raises the null-restriction error before any call; otherwise the calls write exactly the restriction's element (base attribute, pattern, white-space, enumerations in list order) and are balanced |
| JsonXsdWriter.RestrictionEventsMatch | lib/json-xsd-writer.ts:205-226 | The restriction writer's calls serialise the restriction's element tree |
| JsonXsdWriter.EnumerationEventsMatch | lib/json-xsd-writer.ts:219-225 | One enumeration element per value, in list order |
| JsonXsdWriter.EmptyRestrictionExample | tests/restriction-writer-tests.ts:22-30 | All fields null writes an empty `xs:restriction` |
| JsonXsdWriter.EnumeratedRestrictionExample | lib/json-xsd-writer.ts:205-226 | A base and two values write the base attribute then the two enumerations in order |
| JsonXsdWriter.EmptyFieldsAreSkipped | lib/json-xsd-writer.ts:206-218 | Empty strings count as absent: no base, pattern or white-space |
| JsonXsdWriter.WriteValidator | lib/json-xsd-writer.ts:176-194 | The calls write exactly the validator's simple type, start with its name, and are balanced |
| JsonXsdWriter.ValidatorEventsMatch | lib/json-xsd-writer.ts:176-194 | The validator writer's calls serialise the validator's element tree |
| JsonXsdWriter.UnionWrapMatch | lib/json-xsd-writer.ts:179-187 | The union wrapper writes its member list, then an anonymous simple type around the restriction |
| JsonXsdWriter.ContentEventsMatch | lib/json-xsd-writer.ts:179-192 | With members the content is the union wrapper, otherwise the bare restriction (or nothing) |
| JsonXsdWriter.PlainValidatorEvents | lib/json-xsd-writer.ts:188-193 | No members and no restriction: an empty named simple type |
| JsonXsdWriter.UnionValidatorEvents | lib/json-xsd-writer.ts:179-187 | Members without a restriction: a union whose anonymous simple type is empty |
| JsonXsdWriter.SimplestValidatorExample | tests/json-xsd-writer-tests.ts:118-143 | A null and an empty member list both give the empty simple type "StringValidator" |
| JsonXsdWriter.UnionMembersExample | tests/json-xsd-writer-tests.ts:144-156 | The members are written space-separated inside `xs:union` |
| JsonXsdWriter.StringTypeName | lib/xsd-elements.ts:129-132 | A validator of `string` is named "StringValidator" whatever its other fields |
| JsonXsdWriter.IsOverridden | lib/json-xsd-writer.ts:155-164 | Only `borderColor`/`borderWidth` of the border and the four paddings of the layout are overridden |
| JsonXsdWriter.FirstUnmapped | lib/json-xsd-writer.ts:122-129 | The property whose lookup throws: it has no validator and every property before it has one |
| JsonXsdWriter.AttributesRefName | lib/json-xsd-writer.ts:147-150 | The reference name is `ensureStartingLCase` of the class name followed by "Attributes": its length is the name's plus ten, its first character is not upper case, and the rest is the name's |
| JsonXsdWriter.WritePropertyAttribute | lib/json-xsd-writer.ts:124-127 | Fails exactly for a type without a validator, leaving the factory unchanged; otherwise writes the attribute typed by its validator's name and registers the key in map order |
| JsonXsdWriter.WriteProperties | lib/json-xsd-writer.ts:122-129 | Fails exactly when a property that is not overridden has no validator, with the "No validator" error of the first such property's type. Otherwise writes one attribute per such property, in order, and the factory's order is the old one followed by the new keys in order of first use |
| JsonXsdWriter.WriteAttributeThenRest | lib/json-xsd-writer.ts:123-128 | The same for a list whose first property is not overridden: that property's lookup throws first, otherwise the rest's first failure is the error |
| JsonXsdWriter.PropertyStep | lib/json-xsd-writer.ts:122-129 | One attribute followed by the rest's attributes are all kept properties' attributes, and the registration orders compose |
| JsonXsdWriter.LookupOrder | lib/xsd-elements.ts:39-45 | A successful lookup adds its key to the order as an insertion-ordered map does |
| JsonXsdWriter.GroupRefMatch | lib/json-xsd-writer.ts:141-145 | The group reference is an empty `xs:attributeGroup` with the `ref` name |
| JsonXsdWriter.ContentMatch | lib/json-xsd-writer.ts:90-106 | Content holders get `sequence/group ref="UIComponents"`, with `maxOccurs` "1" for the content view and "unbounded" otherwise |
| JsonXsdWriter.ExtensionMatch | lib/json-xsd-writer.ts:83-110 | A class other than the view root extends its first base's name with its content group and attribute group |
| JsonXsdWriter.ComplexTypeMatch | lib/json-xsd-writer.ts:78-116 | The complex type named after the class holds the group reference directly for the view root, and the extension otherwise |
| JsonXsdWriter.ElementMatch | lib/json-xsd-writer.ts:134-139 | The element has name and type both equal to the class name |
| JsonXsdWriter.AttributeGroupMatch | lib/json-xsd-writer.ts:119-131 | The attribute group is named by the reference name and holds the property attributes |
| JsonXsdWriter.ClassNodesMatch | lib/json-xsd-writer.ts:70-73 | A class writes its attribute group, complex type and element, in that order |
| JsonXsdWriter.WriteClass | lib/json-xsd-writer.ts:70-73 | Fails exactly when a kept property has no validator, with the error of the first such property. Otherwise writes exactly the class's three elements, balanced, registering the attributes' keys in order of first use |
| JsonXsdWriter.WriteClasses | lib/json-xsd-writer.ts:35-40 | Every class in turn with the factory threaded through: fails exactly when some class has a kept property without a validator, with the error of the first such property of the first such class; otherwise the classes' elements in order, and the order grows by all used keys |
| JsonXsdWriter.WriteClassThenRest | lib/json-xsd-writer.ts:36-39 | The same for a non-empty list: the first class is written first, so its failure wins over the rest's |
| JsonXsdWriter.ClassStep | lib/json-xsd-writer.ts:36-39 | One turn of the loop: the first class's elements and keys followed by the rest's are all the classes' elements and the final registration order |
| JsonXsdWriter.FirstUnmappedClass | lib/json-xsd-writer.ts:36-39 | The class being written when the first lookup throws: it has a kept property without a validator and every class before it has none |
| JsonXsdWriter.WriteValidators | lib/json-xsd-writer.ts:42-47 | Each validator's simple type, in list order |
| JsonXsdWriter.ChoiceMatch | lib/json-xsd-writer.ts:54-59 | One element per class, in tree order |
| JsonXsdWriter.WriteUIComponents | lib/json-xsd-writer.ts:49-63 | The `UIComponents` group holding a choice of every class's element, balanced |
| JsonXsdWriter.RegisteredNodes | lib/json-xsd-writer.ts:25 | The registered validators' simple types are those of the index keys in registration order |
| JsonXsdWriter.SchemaEvents | lib/json-xsd-writer.ts:16-26 | Root, attributes, class elements, validators and component group serialise the schema tree |
| JsonXsdWriter.Parse | lib/json-xsd-writer.ts:13-29 | Fails exactly when some class has a kept property without a validator, with the error of the first such property of the first such class. Otherwise the whole document is the balanced schema: the classes, then the simple types of the factory's validators followed by those first used by the attributes, each once, then the component group |
| JsonXsdWriter.FreshParseBindingFirst | lib/json-xsd-writer.ts:25 | Through a fresh factory, the binding validator is always the first simple type and no validator is listed twice |
| JsonXsdWriter.ClassOneName | tests/json-xsd-writer-tests.ts:66-78 | "Class1Name" gets the reference name "class1NameAttributes" |
| JsonXsdWriter.SimpleClassExample | tests/json-xsd-writer-tests.ts:79-91 | A class with one `string` property gets the group "class1NameAttributes" holding an attribute typed "StringValidator", then its complex type and element |
| FileWalker.ClassOrInterfaceDeclarations | lib/file-walker.ts:250-260 | Exactly the class and interface declarations, in their original order, each with the multiplicity it has among the declarations |
| FileWalker.ResolveDeclaration | lib/file-walker.ts:227-248 | Several candidates fail unless the first is named `Date` (then the second wins); none gives nothing; one gives it |
| FileWalker.ResolveIgnoresOtherDeclarations | lib/file-walker.ts:250-260 | Inserting a declaration that is neither class nor interface never changes the resolution |
| FileWalker.DateTieBreakExamples | lib/file-walker.ts:241-246 | `Date` first with any followers gives the second; `Date` second fails |
| FileWalker.TypeLabel | lib/file-walker.ts:129-142 | The label in priority order: an ambiguity fails with the multiple-declarations error; a resolved class or interface gives its full name; without one, the keywords give "string", "number" and "boolean", a qualified name gives its left part, and anything else gives the trimmed text |
| FileWalker.ResolvedLabelWins | lib/file-walker.ts:129-131 | With a resolved declaration, the annotation's shape and text are irrelevant |
| FileWalker.SyntaxLabelWins | lib/file-walker.ts:132-139 | Without one, a keyword or qualified name makes the text irrelevant |
| FileWalker.TextLabelIsTrimmed | lib/file-walker.ts:140-142 | Without a declaration, the text fallback is `Trim` of the text: a slice of it with only whitespace around it, neither starting nor ending with whitespace |
| FileWalker.QualifiedLabelIsLeft | lib/file-walker.ts:138-139 | Without a declaration, a qualified name is labelled by its left part whatever the annotation's text |
| FileWalker.AdjustProperty | lib/file-walker.ts:154-202 | Drops exactly: the six listed names, names starting "_", and non-event properties of the five filtered types. An event name loses one "Event" and keeps its type. Anything else is returned unchanged |
| FileWalker.WithoutEventSuffix | lib/file-walker.ts:183-186 | The renamed event followed by "Event" is the original name |
| FileWalker.AdjustedPropertyIsClean | lib/file-walker.ts:179-199 | No survivor starts with "_", and one kept under its own name has no filtered type unless it is an event |
| FileWalker.DroppedNameExamples | tests/file-walker-tests.ts:143-177 | `parent` and underscore names are dropped whatever their type |
| FileWalker.FilteredTypeExamples | tests/file-walker-tests.ts:195-210 | Properties typed as the view or `any` are dropped |
| FileWalker.KeptPropertyExamples | lib/file-walker.ts:183-201 | `tapEvent` of type `any` becomes `tap` of type `any`; `width: number` is kept |
| FileWalker.MemberProperties | lib/file-walker.ts:125-150 | A non-property contributes nothing; a property contributes its adjusted form under its type's label; a label failure is the error |
| FileWalker.FillProperties | lib/file-walker.ts:122-152 | Succeeds exactly when every member does; never more properties than members; none starts with "_" |
| FileWalker.FillPropertiesAppend | lib/file-walker.ts:123 | Members are handled one after another: the properties of two member lists are concatenated |
| FileWalker.GetBaseClass | lib/file-walker.ts:262-277 | No clauses or a first `implements` clause give no base; a first `extends` clause gives the resolution of its first type (so the Date tie-break and the ambiguity error apply), and any base is a class or interface declaration among that type's declarations |
| FileWalker.BaseClassIgnoresTheRest | lib/file-walker.ts:267-275 | Later clauses and later types of the first clause never matter |
| FileWalker.FillBaseClassNames | lib/file-walker.ts:214-225 | No base gives the empty list (the source's undefined, turned into the empty list at lib/lang-elements.ts:67); a failure resolving the direct base is the error, and a non-empty list means the direct base resolved |
| FileWalker.FillBaseFailsUpTheChain | lib/file-walker.ts:214-225 | The walk fails exactly when resolving the base of some ancestor (or of the class itself) fails |
| FileWalker.BaseClassNamesAreAncestors | lib/file-walker.ts:214-225 | The k-th name is the full name of the k-th ancestor, nearest first |
| FileWalker.BaseChainEnds | lib/file-walker.ts:218-224 | The last ancestor named has no base class |
| FileWalker.LabelChainExample | tests/file-walker-tests.ts:79-95 | A label extending a text base extending the view gets the chain [text base, view] |
| FileWalker.ImplementsOnlyHasNoBase | lib/file-walker.ts:269-274 | A class that only implements has no base classes |
| FileWalker.ExtractClass | lib/file-walker.ts:103-112 | The class carries the declaration's names, its comments, its base chain and its properties; either failing is the error |
| FileWalker.GetAllClasses | lib/file-walker.ts:98-120 | Succeeds exactly when every declaration does, then one class per declaration in traversal order; otherwise the ambiguity error |
| FileWalker.ApplyFiltersAppend | lib/file-walker.ts:64-68 | `FileWalker.ApplyFilters`, the `forEach` over the filters: two lists of filters are applied one after the other, each filter to the previous one's result |
| FileWalker.AddClasses | lib/file-walker.ts:70-73 | Adding in order succeeds exactly when full names are distinct, appends them all; a failure is `DuplicateClass` carrying the full name of the first class whose name is already in the tree or among the classes added before it (lib/lang-elements.ts:108-115) |
| FileWalker.BuildTree | lib/file-walker.ts:59-76 | The tree holds exactly the classes that survive the filters in order; it fails exactly on a repeated full name among them, naming the first survivor whose name an earlier survivor already took, or with the extraction error |
| ViewExtendersFilter.Keep | lib/view-extenders-filter.ts:10-34 | Kept exactly when not private, the view root or extending it, and not the frame |
| ViewExtendersFilter.Filter | lib/view-extenders-filter.ts:9-35 | An order-preserving subsequence holding exactly the kept classes, each as many times as in the input |
| ViewExtendersFilter.FilterIdempotent | lib/view-extenders-filter.ts:9-35 | Filtering twice is filtering once |
| ViewExtendersFilter.ViewKeptUnlessPrivate | lib/view-extenders-filter.ts:22-30 | The view root is kept exactly when not private |
| ViewExtendersFilter.FrameRemoved | lib/view-extenders-filter.ts:26-28 | The frame is never kept |
| ViewExtendersFilter.PrivateRemoved | lib/view-extenders-filter.ts:12-14 | A private class is never kept |
| ViewExtendersFilter.BuildTreeKeepsViews | tests/file-walker-tests.ts:264-280 | A tree built through the filter holds only the view root and its descendants |
| ViewExtendersFilter.FilterExample | tests/view-extenders-filter-tests.ts:30-54 | A private view subclass and a non-view are dropped; a public view subclass is kept |
| ActionBarFilter.ShouldEmit | lib/actionbar-filter.ts:9-19 | True exactly for the four action-bar full names |
| ActionBarFilter.ShouldEmitDependsOnFullNameOnly | lib/actionbar-filter.ts:10 | Two classes with one full name get one answer |
| ActionBarFilter.AcceptedCount | lib/actionbar-filter.ts:11-14 | The accepted names are four distinct names |
| ActionBarFilter.ViewNotEmitted | lib/actionbar-filter.ts:16-17 | The view root is not emitted |

## Left out

- I/O and the command line (lib/input.ts, bin/generate-xsd.ts): argument parsing, globbing, file reads and `process.exit` are outside the model.
- The TypeScript compiler: the language service, the type checker, `forEachChild` traversal and comment extraction are replaced by `Decl`, `TypeNode` and `ClassSource` inputs, which carry what they would report (full names, declarations, comments). Traversal order is the order of the `ClassSource` sequence.
- A type the checker cannot resolve, or one without a symbol, is modelled as a `TypeNode` with no declarations. Both give "no declaration", as the source's two early returns do.
- A property declaration without a type annotation is not modelled: the source dereferences `member.type` and would crash.
- `member.type.typeName.left.text` on a doubly qualified name (where `left` has no `text`) is not modelled: `QualifiedReference` carries the left part's text.
- A cyclic base-class chain cannot be written down: a base declaration is part of the declaration that names it.
- The xml-writer's string output (escaping, indentation, `startDocument` and `toString`) is not modelled. The model stops at the log of calls and the element tree it serialises.
- Regular expressions are modelled only where the core's behaviour depends on them: `/(.*)\./` in `Type._getName`, `/(?=[A-Z])/` in `kebabName`, and `/^(.*)Event$/` in `_adjustProperty`. The binding and colour patterns are opaque strings.
- Case mapping is ASCII only; `toUpperCase`/`toLowerCase` of other letters is not modelled.
- The root attributes of `parse` are a sequence of key/value pairs standing for the `Map` the source iterates in insertion order.
- `LangElements.GetName`: the last-segment property is stated only for names without line terminators. For other names the function models the regular expression (which stops at the first line holding a dot), but no contract describes the result.
- `Globals.EnsureStartingUCase`, `Globals.EnsureStartingLCase`, `JsonXsdWriter.AttributesRefName`: they require a non-empty string, because the source indexes the first character and calls a method on it, which throws a `TypeError` on the empty string. That crash is not modelled as an error value.
- `JsonXsdWriter.WriteClass`: requires a non-empty class name and, except for the view root, a non-empty base list. The attribute group is written first (lib/json-xsd-writer.ts:75-76, 119-131), so on a class outside that the source fails in the first of these that applies: a crash naming the group when the class name is empty, "No validator for type …!" when a kept property has no validator, and a crash on `baseClassNames[0].name` when the base list is empty. None of these outcomes is modelled for those classes.
- `JsonXsdWriter.WriteValidator`: requires the validated type to have a non-empty name, for the same reason (`Validator.name` upper-cases its first character).
- `XsdElements.ValidatorKey`: its contract states only that every mapped key is one of the six index keys. The table itself is the function's body, and the examples and `GetValidator` state its consequences.
- The tests' newer API is not part of the library code and is not modelled: the versioned `JsonXsdWriter` constructor, `getUIComponentWriters`, the special-case writers and "remove classes having no members".
- `ActionBarFilter` has no `filter` method in the source, so only `shouldEmit` is modelled.
- Fixture counts (numbers of files, classes and properties in the test resources) depend on files that are not part of this model.
- The `Group` class and the property getters of lib/xsd-elements.ts carry no logic beyond field access.
