# iTin.Core.Models: fields, resources, filters and conditions

iTin.Core.Models describes tables that are built from rows of data. Each row
is an `XElement`, and the model reads only its attributes. The table
definition consists of:

- **fields**: data, gap, fixed, group and packet fields, each with header,
  value and aggregate parts;
- **resources**: fixed-width `Fixed` pieces, `Group`s of items joined by
  separators, data `Filter`s and `Condition`s that decide a cell's style;
- **borders** and assembly **references**.

This project models the parts of that system that compute something:

- **Field values.** How a field's value is read from a row: the Field, Gap,
  Fixed, Group and Packet branches of `FieldValue.GetValue` and
  `FieldValue.GetRawValue`. This includes the packed-date formats, the
  fixed-width pieces with their trim modes, group concatenation with
  separators, and the `_xHHHH_` encoding of field names that begin with a
  special character.
- **Lookups.** The collections that find fields, `Fixed`s, groups, filters
  and borders by name, key or position. Each lookup returns the first match
  or null. The field, `Fixed` and group lookups call `Equals` on a key that
  may be null, so an item without a key met first throws NullReference.
  `Contains` holds exactly when `GetBy` finds something, and throws when it
  does.
- **Filters.** The predicate `BuildFilterExpression` builds for each
  operator, and `ModelService.RawDataFiltered`, which keeps the rows that
  satisfy the applied filter. The service applies the builder as written,
  so a NotEqualTo filter keeps the rows EqualTo would keep (see
  "## Findings"). `RawDataFilteredIntended` applies the corrected builder
  instead.
- **Conditions.** The Remarks, Zero, Maximum, Minimum and WhenChange
  conditions, with their private state: the cached extreme and the last
  swap style.

A row is a `map<string, string>` from attribute names to values. An
exception is a `Fail` of a `Result`, or a `Failure` of a setter's `Outcome`,
tagged with the .NET exception type. A null reference is `None` or `null`.

Some services are called but are not part of this model, so they are
parameters:

- the regular-expression validators, in `Known.Validators`;
- `decimal.Parse`, `DateTime.Parse` and their `ToString` under a culture, in
  `Known.Culture`, plus the culture of each `KnownCulture`. `decimal.Parse`
  has three outcomes (`Known.Parsed`): a number, a text that is no number
  (FormatException), and a number outside decimal's range
  (OverflowException). `DateTime.Parse` rejects a text only with a
  FormatException;
- the style lookup of the resources.

Classes whose fields the system updates in place are Dafny classes: fields,
pieces, `Fixed`s, groups and their items, filters, borders, references, the
model service and the conditions. The getters that create a list lazily and
wire the owners are methods, and so are the loops (`ParseFieldName`, the
Group and Fixed branches, `FieldsCollection.GetBy`,
`GetFieldAttributeEnumerable`, `Fixed.ToDictionary`). Each method is proved
against a function that states what it computes, and the lemmas state what
those functions promise.

## Model

| member | source | states |
|---|---|---|
| PacketFormats.GetInputFormat | src/Design/Shared/Table/Fields/Field/PacketField.cs:89-96 | The three known names map to constants with the same text, and any other format passes through, so the function is the identity. |
| PacketFormats.Adjusted | iTin.Core.Models/src/Design/Shared/FieldValue/FieldValue.cs:356-357 | The padded text has exactly n characters: the last n of the value, or the value with zeros in front. |
| PacketFormats.FormatFull | iTin.Core.Models/src/Design/Shared/FieldValue/FieldValue.cs:352-371 | The result is "" exactly when the value is empty or trims to "0". Otherwise it has length 19, with '/' at 2 and 5, ' ' at 10 and ':' at 13 and 16. |
| PacketFormats.FormatLong | iTin.Core.Models/src/Design/Shared/FieldValue/FieldValue.cs:375-388 | The result is "" exactly for a blank value. Otherwise it has length 10, with '/' at 4 and 7. |
| PacketFormats.FormatShort | iTin.Core.Models/src/Design/Shared/FieldValue/FieldValue.cs:392-405 | The result is "" exactly for a blank value. Otherwise it has length 8, with '/' at 2 and 5. |
| PacketFormats.FormatPacket | iTin.Core.Models/src/Design/Shared/FieldValue/FieldValue.cs:348-409 | An unrecognised input format gives "". A blank value gives "" under every format. |
| PacketFormats.FullRoundTrip | iTin.Core.Models/src/Design/Shared/FieldValue/FieldValue.cs:352-371 | Reading the digits of a full date back in packed order gives exactly the zero-padded last 14 characters of the value. |
| PacketFormats.LongRoundTrip | iTin.Core.Models/src/Design/Shared/FieldValue/FieldValue.cs:375-388 | Deleting the two '/' of a long date gives exactly the zero-padded last 8 characters. |
| PacketFormats.ShortRoundTrip | iTin.Core.Models/src/Design/Shared/FieldValue/FieldValue.cs:392-405 | Deleting the two '/' of a short date gives exactly the zero-padded last 6 characters. |
| Separators.GetSeparatorChar | iTin.Core.Models/src/Design/Shared/Table/Fields/Field/GroupField.cs:73-87 | Any string that is not one of the ten names is returned unchanged. A known name gives a different string of at most one character. "None", and only "None", gives the empty separator. |
| Separators.GetSeparatorCharIdempotent | iTin.Core.Models/src/Design/Shared/Table/Fields/Field/GroupField.cs:73-87 | Mapping twice is the same as mapping once, because no separator is itself a separator name. |
| Separators.GetSeparatorCharCaseSensitive | iTin.Core.Models/src/Design/Shared/Table/Fields/Field/GroupField.cs:75-86 | Names are matched exactly: every text that spells a separator name in other letter cases without being that name (such as "none" or "COMMA") is no separator name and passes through unchanged. |
| Separators.NamesDifferIgnoringCase | iTin.Core.Models/src/Design/Shared/Table/Fields/Field/GroupField.cs:75-86 | No two of the separator names in the switch are equal ignoring case. |
| TrimModes.ParseValue | iTin.Core.Models/src/Design/Shared/Table/Resources/Fixed/Pieces/Piece/Piece.cs:521-537 | Without Trim the value is returned unchanged. With Trim the result is never longer than the value. |
| TrimModes.ParseValueMeaning | iTin.Core.Models/src/Design/Shared/Table/Resources/Fixed/Pieces/Piece/Piece.cs:521-537 | The result is always a slice of the value. With Trim Yes everything cut away is white space: Start cuts only a prefix, End only a suffix, and All a prefix and a suffix. All and Start leave no leading white space, All and End no trailing white space. |
| TrimModes.ParseValueIdempotent | src/Design/Shared/Table/Resources/Groups/Group/Item/GroupItem.cs:372-388 | With fixed Trim and TrimMode settings, parsing twice is the same as parsing once. The same holds for the identical Piece.ParseValue. |
| FieldNames.AsciiCode | src/Design/Shared/FieldValue/FieldValue.cs:449 | The first ASCII byte of a character: the character's own code when it is ASCII, and otherwise 0x3F, the code of '?'. |
| FieldNames.Hex4 | src/Design/Shared/FieldValue/FieldValue.cs:451 | `x4` followed by `ToUpper` gives four characters: two '0's, then two upper-case hexadecimal digits. |
| FieldNames.Hex4RoundTrip | src/Design/Shared/FieldValue/FieldValue.cs:451 | The four upper-case hexadecimal digits read back as the byte they encode. |
| FieldNames.ParsedName | src/Design/Shared/FieldValue/FieldValue.cs:439-454 | A value that does not start with a special character is returned unchanged. One that does becomes an encoded name of the form "_x" followed by four digits and then "_". |
| FieldNames.ParsedNameEncoded | src/Design/Shared/FieldValue/FieldValue.cs:445-452 | The encoded name of a value starting with special character c: "_x", then exactly Hex4 of the ASCII code of c (digits that read back as that code), then "_", then exactly the value with every c removed. Its length is \|value\| − count(c) + 7. |
| Text.RemoveChar | src/Design/Shared/FieldValue/FieldValue.cs:450 | `Replace(c, "")` keeps every other character as often as the value has it and drops every c. |
| Text.RemoveCharAppend | src/Design/Shared/FieldValue/FieldValue.cs:450 | Removing c keeps the order of the other characters: it distributes over concatenation. |
| FieldNames.ParseFieldName | src/Design/Shared/FieldValue/FieldValue.cs:430-455 | A null value throws ArgumentNull. A null list returns the value unchanged. Otherwise the loop over the special characters returns ParsedName. |
| FieldNames.Parse | iTin.Core.Models/src/Design/Shared/FieldValue/FieldValue.cs:244 | The call GetValue makes with a name and a list returns ParsedName. |
| FixedResources.PieceValue | iTin.Core.Models/src/Design/Shared/Table/Resources/Fixed/Pieces/Piece/Piece.cs:494-505 | A null Reference, or a reference attribute missing from the row, throws ArgumentNull. The result is Ok exactly when [From, From+Lenght) lies within the attribute, and otherwise it is ArgumentOutOfRange. An Ok value has at most Lenght characters, is a substring of the slice, is the slice itself when Trim is No, and is the slice parsed by ParseValue with the piece's Trim and TrimMode otherwise. |
| FixedResources.Piece.GetValue | iTin.Core.Models/src/Design/Shared/Table/Resources/Fixed/Pieces/Piece/Piece.cs:492-506 | No owner gives NullReference. An owner without a data source gives ArgumentNull. Otherwise the result is PieceValue of the owner's row and Reference. |
| FixedResources.Piece.constructor | iTin.Core.Models/src/Design/Shared/Table/Resources/Fixed/Pieces/Piece/Piece.cs:101-105 | A new piece has Trim = No and TrimMode = All. |
| FixedResources.Fixed.constructor | src/Design/Shared/Table/Resources/Fixed/Pieces/Fixed.cs:73-80 | A new Fixed has no owner, no data source and no pieces, and its Name and Reference are null, as fields without initialisers are. |
| FixedResources.Piece.SetFrom | iTin.Core.Models/src/Design/Shared/Table/Resources/Fixed/Pieces/Piece/Piece.cs:180-200 | With an owner whose Reference is null, reading its Length throws NullReference. With an owner, From must lie in [0, \|Owner.Reference\|]. Without one, From is rejected when negative. A rejected value throws ArgumentOutOfRange and leaves From as it was. |
| FixedResources.Piece.SetLenght | iTin.Core.Models/src/Design/Shared/Table/Resources/Fixed/Pieces/Piece/Piece.cs:255-275 | With an owner whose Reference is null, reading its Length throws NullReference. With an owner, Lenght must lie in [0, \|Owner.Reference\| − From]. Without one, it must be at least 1. A rejected value throws ArgumentOutOfRange and leaves Lenght as it was. |
| FixedResources.Piece.SetName | iTin.Core.Models/src/Design/Shared/Table/Resources/Fixed/Pieces/Piece/Piece.cs:327-339 | Null throws ArgumentNull. An invalid identifier throws InvalidIdentifier. Only an accepted value is stored. |
| FixedResources.Piece.SetOwner | src/Design/Shared/Table/Resources/Fixed/Pieces/Fixed.cs:183 | Sets the owner. |
| FixedResources.DictionaryFromOk | src/Design/Shared/Table/Resources/Fixed/Pieces/Fixed.cs:245 | ToDictionary succeeds exactly when every piece is readable and no name repeats, counting the keys already present. |
| FixedResources.DictionaryFromContents | src/Design/Shared/Table/Resources/Fixed/Pieces/Fixed.cs:245 | On success the keys are the piece names and each name maps to its piece's value. Entries already present are kept. |
| FixedResources.DictionaryFrom | src/Design/Shared/Table/Resources/Fixed/Pieces/Fixed.cs:245 | The only exceptions are a piece that cannot be read (ArgumentNull, ArgumentOutOfRange) and a repeated name (DuplicateKey). |
| FixedResources.PiecesDictionaryMeaning | src/Design/Shared/Table/Resources/Fixed/Pieces/Fixed.cs:245 | The dictionary of the pieces exists exactly when all pieces are readable and their names are distinct. It then maps each piece's Name to that piece's value. |
| FixedResources.Fixed.GetPieces | src/Design/Shared/Table/Resources/Fixed/Pieces/Fixed.cs:176-188 | The getter creates the list when there is none. It makes this Fixed the owner of every piece and returns the list with its contents and order unchanged. |
| FixedResources.Fixed.SetName | src/Design/Shared/Table/Resources/Fixed/Pieces/Fixed.cs:139-151 | Null throws ArgumentNull. An invalid identifier throws InvalidIdentifier. Only an accepted value is stored. |
| FixedResources.Fixed.SetReference | src/Design/Shared/Table/Resources/Fixed/Pieces/Fixed.cs:214-226 | Null throws ArgumentNull. An invalid field name throws InvalidFieldName. Only an accepted value is stored. |
| FixedResources.Fixed.SetOwner | src/Design/Shared/Table/Resources/Fixed/Pieces/Fixed.cs:254-257 | Sets the owner. |
| FixedResources.Fixed.ToDictionary | src/Design/Shared/Table/Resources/Fixed/Pieces/Fixed.cs:241-246 | A null data source throws ArgumentNull. Otherwise the result is the dictionary of the pieces, read through the Pieces getter: each Name maps to that piece's value. |
| FixedResources.FixedCollection.GetBy | iTin.Core.Models/src/Design/Shared/Table/Resources/Fixed/FixedCollection.designer.cs:28-31 | An empty name gives null. Otherwise the search runs in list order: a Fixed whose Name is null, met before a match, throws NullReference. Otherwise the result is the first Fixed with that name, and null exactly when every Name is non-null and different. |
| FixedResources.FixedCollection.Contains | src/Collections/BaseComplexModelCollection.cs:56 | Throws exactly when GetBy throws. Otherwise true exactly when the name is not empty and is one of the names. |
| FixedResources.FixedCollection.SetOwner | iTin.Core.Models/src/Design/Shared/Table/Resources/Fixed/FixedCollection.designer.cs:41-46 | Null throws ArgumentNull. Otherwise the item's owner becomes this collection and nothing else about it changes. |
| GroupResources.ItemValue | src/Design/Shared/Table/Resources/Groups/Group/Item/GroupItem.cs:342-355 | The result is Ok exactly when an attribute named like the item exists, and otherwise ArgumentNull. The value is the attribute parsed by ParseValue with the item's Trim and TrimMode: a substring of it, and the attribute itself when Trim is No. |
| GroupResources.GroupItem.GetValue | src/Design/Shared/Table/Resources/Groups/Group/Item/GroupItem.cs:338-356 | A null data source throws ArgumentNull. Otherwise the result is ItemValue of the row. |
| GroupResources.GroupItem.constructor | src/Design/Shared/Table/Resources/Groups/Group/Item/GroupItem.cs:97-102 | A new item has Trim = No, TrimMode = All and Separator = "None". |
| GroupResources.Group.constructor | src/Design/Shared/Table/Resources/Groups/Group/Group.cs:65-69 | A new group has no owner and no items, and its Name is null. |
| GroupResources.GroupItem.SetName | src/Design/Shared/Table/Resources/Groups/Group/Item/GroupItem.cs:158-170 | Null throws ArgumentNull. An invalid field name throws InvalidFieldName. Only an accepted value is stored. |
| GroupResources.GroupItem.SetOwner | iTin.Core.Models/src/Design/Shared/Table/Resources/Groups/Group/Item/GroupItem.tenant.cs:26-29 | Sets the owner. |
| GroupResources.Group.GetFields | src/Design/Shared/Table/Resources/Groups/Group/Group.cs:236-248 | The getter creates the list when there is none. It makes this group the owner of every item and leaves the list and the items' settings unchanged. |
| GroupResources.Group.Multiline | src/Design/Shared/Table/Resources/Groups/Group/Group.cs:83 | True exactly when some item's Separator is "New Line", ignoring case. |
| GroupResources.AnyNewLine | src/Design/Shared/Table/Resources/Groups/Group/Group.cs:83 | The `Any` loop over the items: true exactly when some separator equals "New Line", ignoring case. |
| GroupResources.Group.SetName | src/Design/Shared/Table/Resources/Groups/Group/Group.cs:162-174 | Null throws ArgumentNull. An invalid field name throws InvalidFieldName. Only an accepted value is stored. |
| GroupResources.Group.SetOwner | src/Design/Shared/Table/Resources/Groups/Group/Group.cs:261-264 | Sets the owner. |
| GroupResources.GroupsCollection.GetBy | iTin.Core.Models/src/Design/Shared/Table/Resources/Groups/GroupsCollection.designer.cs:28 | The search runs in list order, with no guard for the empty name: a group whose Name is null, met before a match, throws NullReference. Otherwise the first group with that name, and null exactly when every Name is non-null and different. |
| GroupResources.GroupsCollection.Contains | src/Collections/BaseComplexModelCollection.cs:56 | Throws exactly when GetBy throws. Otherwise true exactly when some group has that name. |
| GroupResources.GroupsCollection.SetOwner | iTin.Core.Models/src/Design/Shared/Table/Resources/Groups/GroupsCollection.designer.cs:38-43 | Null throws ArgumentNull. Otherwise the item's owner becomes this collection and nothing else about it changes. |
| FieldValues.FieldAttribute | iTin.Core.Models/src/Design/Shared/FieldValue/FieldValue.cs:239-260 | The attribute of the parsed name, else of its upper-cased form, else of its lower-cased form, else "". A non-empty result is always one of the row's values. |
| FieldValues.FindFixed | iTin.Core.Models/src/Design/Shared/Table/Resources/Fixed/FixedCollection.designer.cs:28-31 | On views: nothing for "". Otherwise the first position with that name; nothing only when every name is non-null and different; NullReference only when some name is null. |
| FieldValues.FindGroup | iTin.Core.Models/src/Design/Shared/Table/Resources/Groups/GroupsCollection.designer.cs:28 | On views: the first position with that name; nothing exactly when every name is non-null and different; NullReference only when some name is null. |
| FieldValues.FindPiece | iTin.Core.Models/src/Design/Shared/FieldValue/FieldValue.cs:279 | `FirstOrDefault` by name: the first piece with that name, and nothing exactly when none has it. |
| FieldValues.FindFixedAgrees | iTin.Core.Models/src/Design/Shared/Table/Resources/Fixed/FixedCollection.designer.cs:28-31 | The collection's indexer returns the Fixed that FindFixed finds on its views, null when it finds nothing, and throws when it throws. |
| FieldValues.FindGroupAgrees | iTin.Core.Models/src/Design/Shared/Table/Resources/Groups/GroupsCollection.designer.cs:28 | The collection's indexer returns the group that FindGroup finds on its views, null when it finds nothing, and throws when it throws. |
| FieldValues.ReadPieceValue | iTin.Core.Models/src/Design/Shared/FieldValue/FieldValue.cs:279-280 | No value exactly when no piece has the name. Otherwise the value of the first piece with that name. |
| FieldValues.FixedFieldValue | iTin.Core.Models/src/Design/Shared/FieldValue/FieldValue.cs:269-284 | A null Pieces, an indexer that throws, or no Fixed named by Pieces (so that the branch dereferences null) gives NullReference. A Fixed that is found with a null Piece throws ArgumentNull from Parse. No other error than NullReference, ArgumentNull and ArgumentOutOfRange is possible. |
| FieldValues.FixedPieceValue | iTin.Core.Models/src/Design/Shared/FieldValue/FieldValue.cs:276-279 | A null Piece throws ArgumentNull. Otherwise reading the piece can only throw ArgumentNull or ArgumentOutOfRange. |
| FieldValues.FixedFieldValueMeaning | iTin.Core.Models/src/Design/Shared/FieldValue/FieldValue.cs:269-284 | A non-null value comes from a piece with the parsed Piece name, inside a Fixed named by Pieces. A null value means that Fixed holds no such piece. |
| FieldValues.PieceLookup | iTin.Core.Models/src/Design/Shared/FieldValue/FieldValue.cs:306-317 | One Fixed of the inner loop: a piece with the item's name supplies the value, or the error reading it. Otherwise the carried value stays. |
| FieldValues.FixedLookupCarries | iTin.Core.Models/src/Design/Shared/FieldValue/FieldValue.cs:306-317 | When no Fixed holds a piece with that name, the value carried from the previous item is kept. |
| FieldValues.FixedLookupLastWins | iTin.Core.Models/src/Design/Shared/FieldValue/FieldValue.cs:306-317 | The last Fixed that holds a piece with that name decides the item's value. |
| FieldValues.FixedLookup | iTin.Core.Models/src/Design/Shared/FieldValue/FieldValue.cs:306-317 | The only exceptions are those of reading a piece: ArgumentNull and ArgumentOutOfRange. |
| FieldValues.MemberValue | iTin.Core.Models/src/Design/Shared/FieldValue/FieldValue.cs:300-317 | An item whose parsed name is an attribute is read back under its unparsed name, so it succeeds exactly when that name is an attribute too. The only exceptions are ArgumentNull and ArgumentOutOfRange. |
| FieldValues.GroupValues | iTin.Core.Models/src/Design/Shared/FieldValue/FieldValue.cs:298-329 | The only exceptions the Group loop can end with are ArgumentNull and ArgumentOutOfRange. |
| FieldValues.GroupValuesExtends | iTin.Core.Models/src/Design/Shared/FieldValue/FieldValue.cs:300-329 | What the Group loop appends does not depend on the text already in the builder. |
| FieldValues.GroupValuesJoined | iTin.Core.Models/src/Design/Shared/FieldValue/FieldValue.cs:298-329 | When every item is an attribute of the row, the group value is the concatenation, in order, of each item's trimmed value followed by its separator. |
| FieldValues.GroupValuesEndsWithSeparator | iTin.Core.Models/src/Design/Shared/FieldValue/FieldValue.cs:325-326 | A successful group value ends with the last item's separator. |
| FieldValues.ItemWithoutSourceRepeats | iTin.Core.Models/src/Design/Shared/FieldValue/FieldValue.cs:303-326 | An item found neither in the row nor among the pieces repeats the value of the item before it. |
| FieldValues.GroupFieldValue | iTin.Core.Models/src/Design/Shared/FieldValue/FieldValue.cs:287-329 | A null Name, an indexer that throws, or no group with the field's Name gives NullReference. Otherwise the result is the loop's value, or its error. No other error than NullReference, ArgumentNull and ArgumentOutOfRange is possible. |
| FieldValues.GetValueSpec | iTin.Core.Models/src/Design/Shared/FieldValue/FieldValue.cs:206-418 | Show = No gives "". A null data source gives "". A Gap field gives "". A Field or Packet field with a Name never throws and never gives null; one whose Name is null throws ArgumentNull from Parse. A Fixed field with a null Pieces, a Group field with a null Name, or either one whose resources cannot be reached throws NullReference. No other error than NullReference, ArgumentNull and ArgumentOutOfRange is possible. |
| FieldValues.GetRawValueSpec | src/Design/Shared/FieldValue/FieldValue.cs:204-400 | Fixed, Group and Gap fields give "", because their cases are commented out. A shown Field or Packet field with a data source and a null Name throws ArgumentNull, and that is the only error. |
| FieldValues.RawValueAgrees | src/Design/Shared/FieldValue/FieldValue.cs:228-387 | For data and packet fields, the raw value is the value GetValue gives, or the same exception, whatever the resources. |
| FieldValues.PacketValue | iTin.Core.Models/src/Design/Shared/FieldValue/FieldValue.cs:336-412 | A null Name throws ArgumentNull. Otherwise a missing attribute gives "", a full-date format reformats the attribute, and a blank attribute gives "". |
| Fields.FieldValue.GetValue | iTin.Core.Models/src/Design/Shared/FieldValue/FieldValue.cs:206-418 | Show = No gives "". A value part without a parent throws NullReference. Otherwise the result is GetValueSpec of the field's settings, its row and the resources as they were before the call. |
| Fields.FieldValue.GetRawValue | src/Design/Shared/FieldValue/FieldValue.cs:204-400 | Show = No gives "". No parent gives NullReference. Otherwise the result is GetRawValueSpec, including its ArgumentNull for a null Name. |
| Fields.FieldValue.TryGetStyle | iTin.Core.Models/src/Design/Shared/FieldValue/FieldValue.cs:427-490 | A style is found exactly when Style is not empty, the chain up to the table's resources is intact (a broken chain's exception is caught) and the lookup finds a style by that name. The style found is the lookup's result. |
| Fields.FieldValue.constructor | iTin.Core.Models/src/Design/Shared/FieldValue/FieldValue.cs:91-95 | A new value part is shown, with style "Default". |
| Fields.FieldValue.SetParent | iTin.Core.Models/src/Design/Shared/FieldValue/FieldValue.cs:450-453 | Sets the parent. |
| Fields.FieldHeader.constructor | src/Design/Shared/FieldHeader/FieldHeader.cs:81-85 | A new header is shown. |
| Fields.FieldHeader.SetParent | src/Design/Shared/FieldHeader/FieldHeader.cs:193-196 | Sets the parent. |
| Fields.FieldAggregate.constructor | iTin.Core.Models/src/Design/Shared/FieldAggregate/FieldAggregate.cs:111-117 | A new aggregate is hidden and located at the top. |
| Fields.FieldAggregate.SetParent | iTin.Core.Models/src/Design/Shared/FieldAggregate/FieldAggregate.cs:318-321 | Sets the parent. |
| Fields.FieldValueOf | iTin.Core.Models/src/Design/Shared/FieldValue/FieldValue.cs:230-413 | The switch on the field type gives GetValueSpec for a shown value. |
| Fields.FixedValueOf | iTin.Core.Models/src/Design/Shared/FieldValue/FieldValue.cs:269-284 | A Fixed field's value is GetValueSpec. Missing resources give NullReference. |
| Fields.GroupValueOf | iTin.Core.Models/src/Design/Shared/FieldValue/FieldValue.cs:287-329 | A Group field's value is GetValueSpec. Missing resources give NullReference. |
| Fields.DataValue | iTin.Core.Models/src/Design/Shared/FieldValue/FieldValue.cs:239-260 | The three attribute lookups of the Field branch give FieldAttribute of the parsed name. |
| Fields.PacketValueOf | iTin.Core.Models/src/Design/Shared/FieldValue/FieldValue.cs:336-412 | The attribute of the parsed name, reformatted by the input format, or "" when the attribute is missing. |
| Fields.ReadPiece | iTin.Core.Models/src/Design/Shared/FieldValue/FieldValue.cs:276-280 | Gives the Fixed the row as its data source, then reads the first piece with the name through the Pieces getter. The settings of every Fixed are unchanged. |
| Fields.FixedBranch | iTin.Core.Models/src/Design/Shared/FieldValue/FieldValue.cs:269-284 | The Fixed branch gives FixedFieldValue of the resources as they were, and leaves their settings unchanged. |
| Fields.ReadFixedPiece | iTin.Core.Models/src/Design/Shared/FieldValue/FieldValue.cs:276-279 | The Fixed gets the row as its data source; then the result is FixedPieceValue of the Fixed as it was, and its settings are unchanged. |
| Fields.LookupPieces | iTin.Core.Models/src/Design/Shared/FieldValue/FieldValue.cs:306-317 | The loop over the Fixed resources gives FixedLookup: each Fixed that holds the name replaces the value. |
| Fields.ItemValueOf | iTin.Core.Models/src/Design/Shared/FieldValue/FieldValue.cs:302-322 | An item whose parsed name is an attribute is read through its own GetValue. Any other item is looked up among the pieces. |
| Fields.AppendItem | iTin.Core.Models/src/Design/Shared/FieldValue/FieldValue.cs:300-326 | One turn of the Group loop: the item's value and then its separator are appended, or the loop stops with the item's error. |
| Fields.GroupItemsValue | iTin.Core.Models/src/Design/Shared/FieldValue/FieldValue.cs:300-329 | The whole Group loop gives GroupValues over the items as they were. |
| Fields.GroupBranch | iTin.Core.Models/src/Design/Shared/FieldValue/FieldValue.cs:287-329 | The Group branch gives GroupFieldValue of the resources as they were. |
| Fields.BaseDataField.constructor | src/Design/Shared/Table/Fields/Field/Base/BaseDataField.cs:75-78 | A new field has Width = "Default", and its Name, Piece and Pieces are null, because their backing fields have no initialiser. |
| Fields.BaseDataField.CanSetData | src/Design/Shared/Table/Fields/Field/Base/BaseDataField.cs:517 | True for every field type except Gap, which overrides it. |
| Fields.BaseDataField.SetDataSource | src/Design/Shared/Table/Fields/Field/Base/BaseDataField.cs:279-283 | The value is stored only when CanSetData holds. Otherwise the setter does nothing, which is the case for Gap fields. |
| Fields.BaseDataField.SetWidth | src/Design/Shared/Table/Fields/Field/Base/BaseDataField.cs:497-503 | Null throws ArgumentNull, and only that is rejected. |
| Fields.BaseDataField.SetPacketName | src/Design/Shared/Table/Fields/Field/PacketField.cs:59-71 | Null throws ArgumentNull. An invalid field name throws InvalidFieldName. Only an accepted value is stored. |
| Fields.BaseDataField.SetPiece | iTin.Core.Models/src/Design/Shared/Table/Fields/Field/FixedField.cs:154-170 | Null throws ArgumentNull. A value that is not a valid identifier throws InvalidIdentifier. Only an accepted value is stored. |
| Fields.BaseDataField.SetPieces | iTin.Core.Models/src/Design/Shared/Table/Fields/Field/FixedField.cs:114-130 | Null throws ArgumentNull. A value that is not a valid identifier throws InvalidIdentifier. Only an accepted value is stored. |
| Fields.BaseDataField.SetOwner | src/Design/Shared/Table/Fields/Field/Base/BaseDataField.cs:546-549 | Changes only the owner. |
| Fields.BaseDataField.GetHeader | iTin.Core.Models/src/Design/Shared/Table/Fields/Field/Base/BaseDataField.cs:317-327 | Creates a shown header when there is none, makes this field its parent, and otherwise keeps the existing header's settings. |
| Fields.BaseDataField.GetValuePart | iTin.Core.Models/src/Design/Shared/Table/Fields/Field/Base/BaseDataField.cs:377-387 | Creates a value part when there is none, makes this field its parent, and otherwise keeps its settings. |
| Fields.BaseDataField.GetAggregate | iTin.Core.Models/src/Design/Shared/Table/Fields/Field/Base/BaseDataField.cs:185-195 | Creates a hidden aggregate at the top when there is none, makes this field its parent, and otherwise keeps its settings. |
| Fields.FieldKey | src/Design/Shared/Table/Fields/Field/Base/BaseDataField.cs:91-100 | GetFieldNameFrom gives Name for Field, Group and Packet fields, Piece for Fixed fields, and "" for Gap fields. The key GetBy compares is that name, except for Gap fields, where it is the Alias. The key is null exactly when that Name, Piece or Alias is null. |
| Fields.GetFieldNameFrom | src/Design/Shared/Table/Fields/Field/Base/BaseDataField.cs:91-100 | The Piece of a fixed field, the Name of a data, group or packet field (null while it is unset), and "" for a gap field. |
| Collections.FindKey | src/Design/Shared/Table/Fields/FieldsCollection.designer.cs:32-99 | The first key equal to the value, and nothing exactly when every key is non-null and different. A null key met first throws NullReference. The same search serves the Fixed and group indexers. |
| Fields.FieldByKey | src/Design/Shared/Table/Fields/FieldsCollection.designer.cs:30-100 | The only error GetBy can throw is NullReference. |
| Fields.FieldByKeyMeaning | src/Design/Shared/Table/Fields/FieldsCollection.designer.cs:42-99 | GetBy returns null exactly when no field has the value as its key. A field it returns is the first whose key equals the value. |
| Fields.FieldsCollection.GetBy | src/Design/Shared/Table/Fields/FieldsCollection.designer.cs:30-100 | The foreach loop with its early break, followed by IndexOf, gives FieldByKey: a field whose Name, Piece or Alias is null, met before a match, throws NullReference. |
| Fields.FieldsCollection.Contains | src/Collections/BaseComplexModelCollection.cs:56 | Holds exactly when GetBy finds a field, and throws when GetBy throws. |
| Fields.FieldsCollection.SetOwner | src/Design/Shared/Table/Fields/FieldsCollection.designer.cs:109-114 | Null throws ArgumentNull. Otherwise the field's owner becomes this collection and its other settings are unchanged. |
| Fields.FieldsCollection.GetRangeByHeaders | iTin.Core.Models/src/Design/Shared/Table/Fields/FieldsCollection.cs:84-89 | The selection of fields with a visible header, whatever argument is passed. |
| Fields.FieldsCollection.GetRangeByLocation | iTin.Core.Models/src/Design/Shared/Table/Fields/FieldsCollection.cs:107-112 | The selection of fields whose aggregate is shown at that location. |
| Fields.FieldsCollection.GetRangeByType | iTin.Core.Models/src/Design/Shared/Table/Fields/FieldsCollection.cs:130-135 | The selection of fields of that type. |
| Fields.SelectMeaning | iTin.Core.Models/src/Design/Shared/Table/Fields/FieldsCollection.cs:84-135 | Every GetRange result is an order-preserving subsequence of the fields. It contains only selected fields and every selected field. |
| Fields.SelectEmpty | iTin.Core.Models/src/Design/Shared/Table/Fields/FieldsCollection.cs:84-135 | The selection is empty exactly when no field is selected. |
| Fields.HasVisibleHeadersMeaning | iTin.Core.Models/src/Design/Shared/Table/Fields/FieldsCollection.cs:168 | HasVisibleHeaders holds exactly when some field shows its header. |
| Fields.HasVisibleAggregatesMeaning | iTin.Core.Models/src/Design/Shared/Table/Fields/FieldsCollection.cs:153-158 | HasVisibleAggregatesByLocation holds exactly when some field shows its aggregate there, that is when GetRange(location) is not empty. |
| Known.ParseError | src/Design/Shared/Table/Resources/Filters/Filter/Filter.cs:275 | A text decimal.Parse rejects throws OverflowException exactly when it is a number outside decimal's range, and FormatException otherwise. |
| Filters.ParseBound | src/Design/Shared/Table/Resources/Filters/Filter/Filter.cs:275 | decimal.Parse of the bound after '.' becomes ','. The bound is the parsed number. A text that is no number throws Format, and a number outside decimal's range throws Overflow. |
| Filters.BuildFilterExpression | src/Design/Shared/Table/Resources/Filters/Filter/Filter.cs:245-312 | As written. A null Field throws NullReference. An undefined operator throws ArgumentOutOfRange. Beetween throws ArgumentOutOfRange unless Value splits into exactly two words. Any other failure is a comparison bound that decimal.Parse rejects, with Format or Overflow. |
| Filters.BuildFilter | src/Design/Shared/Table/Resources/Filters/Filter/Filter.cs:245-312 | The corrected builder. It agrees with BuildFilterExpression on every operator except NotEqualTo. |
| Filters.EqualToMeaning | src/Design/Shared/Table/Resources/Filters/Filter/Filter.cs:245-271 | A row passes exactly when upper(row[upper(Field)]) equals upper(Value). A missing attribute throws. |
| Filters.LikeMeaning | src/Design/Shared/Table/Resources/Filters/Filter/Filter.cs:303-304 | A row passes exactly when its upper-cased attribute contains upper(Value). |
| Filters.InMeaning | src/Design/Shared/Table/Resources/Filters/Filter/Filter.cs:285-289 | A row passes exactly when its upper-cased attribute is one of the space-separated words of upper(Value), which join back to it. |
| Filters.BeetweenMeaning | src/Design/Shared/Table/Resources/Filters/Filter/Filter.cs:252-268 | Built exactly when Value holds two words that both parse. A row passes exactly when left ≤ v and v ≤ right. A row value decimal.Parse rejects throws Format, or Overflow when it is out of range. |
| Filters.ComparisonMeaning | src/Design/Shared/Table/Resources/Filters/Filter/Filter.cs:273-301 | GreatherThan, GreatherOrEqualsThan, LessThan and LessOrEqualThan are >, ≥, < and ≤ of the parsed attribute against the parsed Value. A Value that is no number throws Format when the filter is built, and one outside decimal's range throws Overflow. A row value decimal.Parse rejects throws that exception in the same way. |
| Filters.NotEqualToAsWritten | src/Design/Shared/Table/Resources/Filters/Filter/Filter.cs:306-307 | As written, NotEqualTo builds exactly the EqualTo predicate, so a row with A = "x" passes `A NotEqualTo x`. |
| Filters.NotEqualToNegates | src/Design/Shared/Table/Resources/Filters/Filter/Filter.cs:306-307 | With the corrected builder, NotEqualTo passes a row exactly when EqualTo rejects it, and both throw on the same rows. |
| Filters.PassingComplement | src/Design/Shared/Table/Resources/Filters/Filter/Filter.cs:306-307 | When every row can be tested, the rows passing a predicate and those passing its negation add up to all the rows. |
| Filters.FindAllMeaning | iTin.Core.Models/src/Data/ModelService.cs:109 | `FindAll` succeeds exactly when every row can be tested. It then returns the passing rows in their original order, a subsequence no longer than the input. |
| Filters.Filter.constructor | src/Design/Shared/Table/Resources/Filters/Filter/Filter.cs:62-66 | A new filter has Value = "", Active = Yes and Criterial = EqualTo. |
| Filters.Filter.Expression | src/Design/Shared/Table/Resources/Filters/Filter/Filter.cs:245-312 | The filter's BuildFilterExpression as written. A filter without a Field throws NullReference, and NotEqualTo gives the EqualTo predicate. |
| Filters.Filter.IntendedExpression | src/Design/Shared/Table/Resources/Filters/Filter/Filter.cs:306-307 | The same as Expression for every operator except NotEqualTo. For NotEqualTo it succeeds exactly when Expression does, and is then its negation. |
| Filters.Filter.SetCriterial | src/Design/Shared/Table/Resources/Filters/Filter/Filter.cs:147-156 | A value outside the enumeration throws and leaves Criterial as it was. |
| Filters.Filter.SetActive | src/Design/Shared/Table/Resources/Filters/Filter/Filter.cs:119-128 | Stores the value. |
| Filters.Filter.SetField | src/Design/Shared/Table/Resources/Filters/Filter/Filter.cs:170-186 | Null throws ArgumentNull. An invalid field name throws InvalidFieldName. Only an accepted value is stored. |
| Filters.Filter.SetKey | src/Design/Shared/Table/Resources/Filters/Filter/Filter.cs:199-208 | Null throws ArgumentNull, and only that is rejected. |
| Filters.Filter.SetValue | src/Design/Shared/Table/Resources/Filters/Filter/Filter.cs:222-231 | Null throws ArgumentNull, and only that is rejected. |
| Filters.Filter.SetOwner | src/Design/Shared/Table/Resources/Filters/Filter/Filter.tenant.cs:26-29 | Sets the owner. |
| Filters.FiltersCollection.GetBy | iTin.Core.Models/src/Design/Shared/Table/Resources/Filters/FiltersCollection.designer.cs:28 | The first filter whose Key is the value, and null exactly when no key matches. The same search is at src/Design/Shared/Filters/FiltersCollection.designer.cs:28. |
| Filters.FiltersCollection.Contains | src/Collections/BaseComplexModelCollection.cs:56 | Holds exactly when some filter has that key. |
| Filters.FiltersCollection.SetOwner | iTin.Core.Models/src/Design/Shared/Table/Resources/Filters/FiltersCollection.designer.cs:38-43 | Null throws ArgumentNull. Otherwise the filter's owner becomes this collection and its settings are unchanged. |
| Borders.AllSidesOnce | src/Design/Shared/Borders/BordersCollection.cs:42-45 | The four borders come in the order Left, Top, Right, Bottom, and each position appears exactly once. Every border has the colour and Show = Yes. |
| Borders.FromCustomColor | src/Design/Shared/Borders/BordersCollection.cs:40-46 | A new collection holding the four shown borders of that colour. |
| Borders.FromKnownColor | src/Design/Shared/Borders/BordersCollection.cs:55-61 | As FromCustomColor, using the colour's name. |
| Borders.Border.SetOwner | src/Design/Shared/Borders/BordersCollection.designer.cs:36 | Sets the owner. |
| Borders.BordersCollection.GetBy | iTin.Core.Models/src/Design/Shared/Borders/BordersCollection.designer.cs:26 | The first border at that position, and null exactly when none is there. The same search is at src/Design/Shared/Borders/BordersCollection.designer.cs:26. |
| Borders.BordersCollection.Contains | src/Collections/BaseComplexModelCollection.cs:56 | Holds exactly when some border is at that position. |
| Borders.BordersCollection.SetOwner | src/Design/Shared/Borders/BordersCollection.designer.cs:32-37 | Null throws ArgumentNull. Otherwise the border's owner becomes this collection and its settings are unchanged. The same code is at iTin.Core.Models/src/Design/Shared/Borders/BordersCollection.designer.cs:35-40. |
| Service.ModelService.constructor | iTin.Core.Models/src/Data/ModelService.cs:150-162 | The service as SetInputDataModel leaves it: the provider's rows, the filters and filter name, current column and row 0, and no current field. |
| Service.ModelService.AppliedFilter | iTin.Core.Models/src/Data/ModelService.cs:90-106 | No filter applies exactly when CurrentFilter is null or empty, when no filter has that key, or when that filter is not active. An applied filter has that key and is active. |
| Service.ModelService.RawDataFiltered | iTin.Core.Models/src/Data/ModelService.cs:86-111 | RawData when no filter applies. The builder's exception when the expression cannot be built. Otherwise the rows the as-written expression keeps, from Filter.Expression. |
| Service.RawDataFilteredMeaning | iTin.Core.Models/src/Data/ModelService.cs:108-111 | With a filter applied, the call succeeds exactly when every row can be tested. The result is then a subsequence of RawData, no longer than it, holding exactly the rows that pass the as-written expression of Filter.Expression. |
| Service.ModelService.RawDataFilteredIntended | iTin.Core.Models/src/Data/ModelService.cs:108-111 | RawData when no filter applies. The same result as RawDataFiltered for every operator except NotEqualTo. |
| Service.RawDataFilteredIntendedMeaning | iTin.Core.Models/src/Data/ModelService.cs:108-111 | With a NotEqualTo filter applied, the intended and the as-written results throw together. Otherwise they share no row, and together they hold exactly as many rows as RawData. |
| Service.ModelService.SetCurrentCol | iTin.Core.Models/src/Data/ModelService.cs:123-126 | Changes CurrentCol only. |
| Service.ModelService.SetCurrentRow | iTin.Core.Models/src/Data/ModelService.cs:141-144 | Changes CurrentRow only. |
| Service.ModelService.SetCurrentField | iTin.Core.Models/src/Data/ModelService.cs:132-135 | Changes CurrentField only. |
| Service.ModelService.TryGetUnderlyingDataAsDataTable | iTin.Core.Models/src/Data/ModelService.cs:171-182 | Returns false with null data when the provider cannot give a DataTable, and otherwise true with the provider's table. |
| References.ShownPath | src/Design/Shared/Table/References/Reference/Reference.cs:101 | The shown path never contains "Default". A stored path without "Default" is shown unchanged. |
| References.ShownPathReplacesFirst | src/Design/Shared/Table/References/Reference/Reference.cs:101 | Every "Default" becomes "~" where it stands: the text before the first one is shown as it is, that one as "~", and the rest is shown the same way. |
| References.DefaultShownAsHome | src/Design/Shared/Table/References/Reference/Reference.cs:101 | The path "Default" is shown as "~". |
| References.Reference.constructor | src/Design/Shared/Table/References/Reference/Reference.cs:41-44 | A new reference stores "Default", so Path reads back as "~". |
| References.Reference.SetPath | src/Design/Shared/Table/References/Reference/Reference.cs:102-110 | Null throws ArgumentNull. A path the validator rejects throws InvalidPath. Only an accepted path is stored. |
| Conditions.SameParsed | iTin.Core.Models/src/Design/Shared/Table/Resources/Conditions/Condition/RemarksCondition.cs:273-286 | Ok exactly when the value and the test value both parse and the test value is not null. Equal exactly when both parse to the same number. The value is parsed first: a rejected text throws Format, or Overflow for a decimal outside decimal's range. A null test value throws ArgumentNull. |
| Conditions.EvaluateCriterial | iTin.Core.Models/src/Design/Shared/Table/Resources/Conditions/Condition/RemarksCondition.cs:220-431 | A value of no known kind gives false. Every operator other than EqualTo and NotEqualTo gives false, because those cases are commented out. |
| Conditions.TextCriteria | iTin.Core.Models/src/Design/Shared/Table/Resources/Conditions/Condition/RemarksCondition.cs:264-271 | For a text value, EqualTo holds exactly when the value is the Value, and NotEqualTo (lines 404-410) is its exact negation. |
| Conditions.NotEqualToComplement | iTin.Core.Models/src/Design/Shared/Table/Resources/Conditions/Condition/RemarksCondition.cs:264-426 | NotEqualTo throws exactly when EqualTo does, and otherwise gives its negation. For a value of no known kind, both give false. |
| Conditions.ParsedCriteria | iTin.Core.Models/src/Design/Shared/Table/Resources/Conditions/Condition/RemarksCondition.cs:273-286 | A numeric value meets EqualTo exactly when it and the Value parse to the same decimal, and a date value likewise with dates. A value the parser rejects throws the parser's exception (Format, or Overflow for a decimal out of range), the target's before the Value's. NotEqualTo does the same at lines 412-425. |
| Conditions.FieldNameCheck | src/Design/Shared/Table/Resources/Conditions/Base/BaseCondition.cs:335-347 | The Field setter accepts exactly a valid non-null field name. An invalid name throws InvalidFieldName. |
| Conditions.IdentifierCheck | src/Design/Shared/Table/Resources/Conditions/Base/BaseCondition.cs:385-397 | The Key and Style setters accept exactly a valid non-null identifier. An invalid one throws InvalidIdentifier. |
| Conditions.AcceptedLocale | src/Design/Shared/Table/Resources/Conditions/Base/BaseCondition.cs:435-454 | The locale is kept exactly when it is Current or an installed culture, and otherwise becomes Current. |
| Conditions.AcceptedLocaleIdempotent | src/Design/Shared/Table/Resources/Conditions/Base/BaseCondition.cs:435-454 | Setting an accepted locale again keeps it. |
| Conditions.CopyAsRemarksPasses | iTin.Core.Models/src/Design/Shared/Table/Resources/Conditions/Condition/ZeroCondition.cs:111-122 | Building the RemarksCondition succeeds exactly when Field is a valid field name and Style a valid identifier. When Field is refused, the Field setter's exception is the one thrown. |
| Conditions.RemarksResult | iTin.Core.Models/src/Design/Shared/Table/Resources/Conditions/Condition/RemarksCondition.cs:194 | CanApply is the criterion's result, and the criterion's exception is passed on. The Style is always this condition's Style, and Active is never consulted. |
| Conditions.RemarksSpec | iTin.Core.Models/src/Design/Shared/Table/Resources/Conditions/Condition/RemarksCondition.cs:194 | Ok exactly when EvaluateCriterial on the condition's Criterial, Value and culture is. CanApply is that criterial value and Style is the condition's Style; Active is never read. |
| Conditions.ZeroSpec | iTin.Core.Models/src/Design/Shared/Table/Resources/Conditions/Condition/ZeroCondition.cs:109-123 | A setter of the RemarksCondition copy that rejects Field or Style gives its exception. Otherwise the result is EqualTo "0" under the accepted locale, with the condition's Style. |
| Conditions.ZeroMeaning | iTin.Core.Models/src/Design/Shared/Table/Resources/Conditions/Condition/ZeroCondition.cs:109-123 | Zero is Remarks with EqualTo, Value "0" and the accepted locale. For a text value it applies exactly when the value is "0", and its style is always Style. |
| Conditions.FieldAttributesMeaning | src/Design/Shared/Table/Resources/Conditions/Base/BaseCondition.cs:500-520 | No more values than filtered rows, none of them empty. A string is among them exactly when some row has it as the attribute Field. |
| Conditions.ParseAll | iTin.Core.Models/src/Design/Shared/Table/Resources/Conditions/Condition/MaximumCondition.cs:186-192 | Parsing all the values succeeds exactly when each one parses, and keeps their order. |
| Conditions.ParseAllStopsAtFirst | iTin.Core.Models/src/Design/Shared/Table/Resources/Conditions/Condition/MaximumCondition.cs:186-192 | The first value the parser rejects decides the exception: Format, or Overflow for a decimal outside decimal's range. |
| Conditions.Extremum | iTin.Core.Models/src/Design/Shared/Table/Resources/Conditions/Condition/MaximumCondition.cs:186-192 | Max (Min) of a non-empty list is one of its elements and is ≥ (≤) every element. |
| Conditions.ComputedMeaning | iTin.Core.Models/src/Design/Shared/Table/Resources/Conditions/Condition/MaximumCondition.cs:178-192 | The computed maximum (minimum) is the parse of one of the values and bounds the parse of every value. An empty list throws InvalidOperation. Otherwise it fails exactly when some value does not parse, and the first such value gives the exception: Format, or Overflow for a decimal outside decimal's range. |
| Conditions.ExtremeText | iTin.Core.Models/src/Design/Shared/Table/Resources/Conditions/Condition/MaximumCondition.cs:128-131 | A text value gives Default and leaves the cache as it was. |
| Conditions.ExtremeSpec | iTin.Core.Models/src/Design/Shared/Table/Resources/Conditions/Condition/MaximumCondition.cs:126-162 | The last swap style is untouched. A text value gives Default and keeps the cache. A successful evaluation of any other value leaves an extreme cached. |
| Conditions.ExtremeCacheReused | iTin.Core.Models/src/Design/Shared/Table/Resources/Conditions/Condition/MaximumCondition.cs:133-148 | Once the extreme is cached it is kept, and the result no longer depends on the rows. |
| Conditions.ExtremeFirstEvaluation | iTin.Core.Models/src/Design/Shared/Table/Resources/Conditions/Condition/MaximumCondition.cs:133-148 | The first evaluation of a non-text value caches the extreme of the filtered values. If that computation fails, it throws the same exception and caches nothing. |
| Conditions.ExtremeCanApply | iTin.Core.Models/src/Design/Shared/Table/Resources/Conditions/Condition/MaximumCondition.cs:150-161 | CanApply holds exactly when the value parses to what the cached extreme's text parses to. The style is always Style. |
| Conditions.ExtremeMatchesValue | iTin.Core.Models/src/Design/Shared/Table/Resources/Conditions/Condition/MaximumCondition.cs:150-161 | When the extreme's text reads back as the extreme, CanApply holds exactly when the value is the maximum. The same holds for MinimumCondition. |
| Conditions.WhenChangeStepMeaning | src/Design/Shared/Table/Resources/Conditions/Condition/WhenChangeCondition.cs:174-204 | A matching field always applies, with the style the call leaves as the last one. Another field gives Default and keeps the state. With no previous value, the first style starts over. An unchanged value or an empty second style keeps the last style. A change toggles it. |
| Conditions.WhenChangeStep | src/Design/Shared/Table/Resources/Conditions/Condition/WhenChangeCondition.cs:157-205 | For another field, Default and the last style kept. For the current field, the condition applies with the style it leaves as the last one, which is the last, the first or the second style. |
| Conditions.WhenChangeSpec | src/Design/Shared/Table/Resources/Conditions/Condition/WhenChangeCondition.cs:157-205 | The cached extreme is untouched. A failed filter gives its error, and a row outside the filtered rows throws IndexOutOfRange. A null Field, or a current field whose name is null, throws NullReference from ToUpperInvariant. A successful result applies exactly when the field is the current field, compared upper-cased. |
| Conditions.ToggleTwice | src/Design/Shared/Table/Resources/Conditions/Condition/WhenChangeCondition.cs:200-202 | When First ≠ Second, two changes in a row restore the last style. |
| Conditions.WhenChangeKeepsSwapStyles | src/Design/Shared/Table/Resources/Conditions/Condition/WhenChangeCondition.cs:181-204 | The last style always stays one of the two swap styles. |
| Conditions.WhenChangeFirstRow | src/Design/Shared/Table/Resources/Conditions/Condition/WhenChangeCondition.cs:162-183 | At row 0 there is no previous value, so the matching field gives (true, FirstSwapStyle), which becomes the last style. |
| Conditions.Step | src/Design/Shared/Table/Resources/Conditions/Base/BaseCondition.cs:126 | Only Maximum and Minimum change the cached extreme, and only WhenChange changes the last style. |
| Conditions.EvaluateAtSpec | src/Design/Shared/Table/Resources/Conditions/Base/BaseCondition.cs:142-150 | A null Field or no current field throws NullReference. A different field name, compared upper-cased, gives Default. The current field gives the condition's own evaluation. |
| Conditions.CurrentFieldName | src/Design/Shared/Table/Fields/Field/Base/BaseDataField.cs:91-100 | No name exactly when there is no current field or its name is null. A current Gap field is named "". Otherwise the name is GetFieldNameFrom of the current field. |
| Conditions.UnnamedCurrentFieldThrows | src/Design/Shared/Table/Resources/Conditions/Base/BaseCondition.cs:144-145 | A current Field, Group or Packet field whose Name is null makes the evaluation throw NullReference. |
| Conditions.Condition.constructor | src/Design/Shared/Table/Resources/Conditions/Base/BaseCondition.cs:100-105 | A new condition is active, applies to its cell only, uses the Current locale, has Criterial = EqualTo and has nothing cached. |
| Conditions.Condition.SetActive | src/Design/Shared/Table/Resources/Conditions/Base/BaseCondition.cs:234-243 | Stores the value. |
| Conditions.Condition.SetEntireRow | src/Design/Shared/Table/Resources/Conditions/Base/BaseCondition.cs:288-297 | Stores the value. |
| Conditions.Condition.SetField | src/Design/Shared/Table/Resources/Conditions/Base/BaseCondition.cs:335-347 | Runs FieldNameCheck: null and invalid field names are refused. Only an accepted value is stored. |
| Conditions.Condition.SetKey | src/Design/Shared/Table/Resources/Conditions/Base/BaseCondition.cs:385-397 | Runs IdentifierCheck: null and invalid identifiers are refused. Only an accepted value is stored. |
| Conditions.Condition.SetLocale | src/Design/Shared/Table/Resources/Conditions/Base/BaseCondition.cs:435-454 | Stores the accepted locale. |
| Conditions.Condition.SetStyle | iTin.Core.Models/src/Design/Shared/Table/Resources/Conditions/Condition/ZeroCondition.cs:82-94 | Runs IdentifierCheck and stores only an accepted style. The same style setter is at RemarksCondition.cs:128-140 and MaximumCondition.cs:99-111. |
| Conditions.Condition.SetValue | iTin.Core.Models/src/Design/Shared/Table/Resources/Conditions/Condition/RemarksCondition.cs:170-179 | Null throws ArgumentNull, and any other value is stored. |
| Conditions.Condition.SetCriterial | iTin.Core.Models/src/Design/Shared/Table/Resources/Conditions/Condition/RemarksCondition.cs:89-98 | A value outside the enumeration throws InvalidEnum, and any other value is stored. |
| Conditions.Condition.SetFirstSwapStyle | src/Design/Shared/Table/Resources/Conditions/Condition/WhenChangeCondition.cs:88-100 | Runs IdentifierCheck and stores only an accepted style. |
| Conditions.Condition.SetSecondSwapStyle | src/Design/Shared/Table/Resources/Conditions/Condition/WhenChangeCondition.cs:130-142 | Runs IdentifierCheck and stores only an accepted style. |
| Conditions.Condition.GetFieldAttributeEnumerable | src/Design/Shared/Table/Resources/Conditions/Base/BaseCondition.cs:500-520 | The loop over the filtered rows gives, in row order, the non-empty values of attribute Field. An exception from filtering is passed on. |
| Conditions.Condition.CalculateExtreme | iTin.Core.Models/src/Design/Shared/Table/Resources/Conditions/Condition/MaximumCondition.cs:178-192 | CalculateNumericMaxValue, CalculateDateTimeMaxValue and their minimum counterparts compute the extreme of the filtered attribute values. |
| Conditions.Condition.ComputeExtreme | iTin.Core.Models/src/Design/Shared/Table/Resources/Conditions/Condition/MaximumCondition.cs:135-147 | Computes the extreme a non-cached evaluation stores: decimal for a numeric value, then DateTime for a date value, which replaces it. A failed decimal computation stops with its exception. A failed DateTime computation keeps the decimal extreme and reports the exception. |
| Conditions.Condition.RefreshExtreme | iTin.Core.Models/src/Design/Shared/Table/Resources/Conditions/Condition/MaximumCondition.cs:133-148 | Nothing is recomputed while the extreme is cached. Otherwise a numeric value computes a decimal extreme, and a date value then computes a DateTime extreme that replaces it. |
| Conditions.Condition.EvaluateExtreme | iTin.Core.Models/src/Design/Shared/Table/Resources/Conditions/Condition/MaximumCondition.cs:126-162 | MaximumCondition.Evaluate (and the identical MinimumCondition.Evaluate, src/Design/Shared/Table/Resources/Conditions/Condition/MinimumCondition.cs:126-162): result and new cache as ExtremeSpec gives them, from the state before the call. |
| Conditions.Condition.EvaluateWhenChange | src/Design/Shared/Table/Resources/Conditions/Condition/WhenChangeCondition.cs:157-205 | Result and new last style as WhenChangeSpec gives them. A row outside the filtered rows throws IndexOutOfRange. |
| Conditions.Condition.EvaluateTarget | src/Design/Shared/Table/Resources/Conditions/Base/BaseCondition.cs:126 | Each kind evaluates as Step describes, from the state before the call. |
| Conditions.Condition.EvaluateAt | src/Design/Shared/Table/Resources/Conditions/Base/BaseCondition.cs:142-150 | Evaluate(row, col) behaves as EvaluateAtSpec. A condition on another field gives Default and changes nothing. |
| Conditions.Condition.Evaluate | src/Design/Shared/Table/Resources/Conditions/Base/BaseCondition.cs:468-475 | Evaluate() is EvaluateAtSpec at the service's CurrentRow. |

## Left out

- Data inputs and providers are not modelled: JSON, XML, DataTable, DataSet
  and enumerable inputs, `SetInputDataModel`, and `TryGetUnderlyingDataAsXml`.
  They are file, ADO.NET and reflection I/O. `Service.ModelService` stands
  for the state after `SetInputDataModel`: its constructor receives the raw
  rows, the filters, the current filter and what the provider answers.
- `ModelService.Instance` is a process-wide singleton. Here the service is an
  explicit object passed to the conditions.
- Culture-dependent parsing and printing are parameters (`Known.Culture`),
  and so is the culture each `KnownCulture` stands for. A DateTime is
  represented by a real number. The installed-culture check behind the
  Locale setter is `Validators.isValidCulture`.
- `RegularExpressionHelper` validators are parameters (`Known.Validators`).
  `GetStaticBindingValue` is the identity, so the getters of `Field`, `Key`,
  `Value` and `Active` return what was stored.
- Style resolution (`Resources.GetStyleResourceByName` and then
  `Styles.GetBy`) is the `styleByName` parameter of
  `Fields.FieldValue.TryGetStyle`.
- Fields.FieldValue.GetValue: returns the value text only. The style it
  puts into `FieldValueInformation` comes from `TryGetStyle`, which is
  modelled separately.
- Fields.FieldValue.GetValue: `resources` is a parameter standing for
  `Parent.Owner.Parent.Resources`, where null means the chain is broken.
  The modifies clause is the only statement that the call changes nothing
  but data sources, owners and the lazily created lists.
- `BaseDataField.CalculateWidthValue` is not modelled, because it returns a
  `double`. Fonts, colours and GDI are not modelled either.
- The value a condition tests is a parameter (`Conditions.Target`): its
  text and whether it is text, numeric or a date. Producing it needs
  `FieldValueInformation`, which is not part of this model.
- Conditions.Condition.constructor: the `KnownOperator` enumeration is not
  part of this model. A C# enum field starts at the member whose value is 0,
  taken to be EqualTo. The same holds for Filters.Filter.constructor.
- Filters.Filter.constructor: Criterial is taken to start at EqualTo, for the
  reason given for Conditions.Condition.constructor.
- Conditions.Condition.SetActive: the Active and EntireRow getters are the
  identity (after `GetStaticBindingValue`), so they are not separate members.
- Conditions.Condition.EvaluateExtreme: `_maxValue.ToString()` uses the
  current culture, modelled as `Cultures.current`. The filtered rows are
  read with the current culture as well.
- `BaseCondition.SetOwner` and `ConditionsCollection` are not modelled.
  `ConditionsCollection.designer.cs` `GetBy` refers to an undefined `name`
  at line 42, so it does not compile.
- `ColumnsHeadersCollection.GetBy` is not modelled. It compares a header
  with a string through an `Equals` override that is not part of this
  model.
- Filters.IsSatisfiedBy: the `And` of `ExpressionSpecification` is taken to
  evaluate its right side only when its left side holds, as C# `&&` does.
  `ExpressionSpecification` is not part of this model.
- References.Reference.constructor: assumes the path validator accepts
  "Default". The model stores it without calling the validator.
- Serialisation attributes, `IsDefault` and `ToString` overrides, the
  `MemberwiseClone` copies, `TableDefinition`, `DataField`, `FixedField`,
  `GapField` and the error-message helpers are not modelled. They only
  assign defaults or format messages.
- Filters.Filter: one class models both `Filter` (Filter.cs) and
  `BaseFilter` (BaseFilter.filter.cs), because their setters and their
  `BuildFilterExpression` are identical. The rows above cite Filter.cs; the
  BaseFilter lines are BaseFilter.filter.cs:67-163 for the setters and
  176-243 for the builder.
- Fields.BaseDataField: one class models both BaseDataField.cs files, whose
  members coincide.
- Text.Upper: `ToUpperInvariant`, `ToLowerInvariant` and
  `OrdinalIgnoreCase` are modelled on ASCII letters only (`Text.Upper`, `Text.Lower`), so
  letters outside ASCII, such as "é" and "É", are not case-mapped. A Dafny `char` is a Unicode scalar value,
  whereas a .NET `char` is a UTF-16 code unit, so lengths and indexes of
  text outside the Basic Multilingual Plane differ.
- FieldValues.FieldAttribute: the attribute lookup ignores case, modelled on ASCII letters only (`Text.Upper`, `Text.Lower`), so
  letters outside ASCII, such as "é" and "É", are not case-mapped.
  A row `{"ÉTAT": "v"}` is not found for the field "état".
- Fields.DataValue: reads the attribute through FieldAttribute, so it shares
  its ASCII-only case mapping.
- Filters.BuildFilterExpression: the upper-casing of attribute and value is
  modelled on ASCII letters only (`Text.Upper`, `Text.Lower`), so
  letters outside ASCII, such as "é" and "É", are not case-mapped.
- Filters.EqualToMeaning: states equality of the ASCII upper-cased texts.
  It does not state the Unicode case mapping the source uses.
- Filters.LikeMeaning: states containment of the ASCII upper-cased texts.
  It does not state the Unicode case mapping the source uses.
- Filters.InMeaning: states membership of the ASCII upper-cased texts.
  It does not state the Unicode case mapping the source uses.
- Conditions.EvaluateAtSpec: reads and compares attributes with the ASCII
  case mapping of FieldAttribute and Text.Upper.
- Conditions.Condition.EvaluateWhenChange: compares the field with the
  current field ASCII upper-cased, not with `ToUpperInvariant`.
- FieldNames.Parse: `BaseDataProvider.Parse` is not part of this model. It
  is modelled as computing what `FieldValue.ParseFieldName` computes
  (FieldValue.cs:430-455). The Field and Packet branches of
  FieldValue.GetValue call this member; the Fixed and Group branches use
  FieldNames.ParsedName, which this member is proved to return.
- Separators.GetSeparatorChar: the values of `KnownItemGroupSeparator` are
  not part of this model. Each named separator is taken to be the character
  its name says, and New Line to be "\n". If it is `Environment.NewLine`
  ("\r\n" on Windows), the at-most-one-character clause does not hold for
  New Line.
- FixedResources.Piece.constructor: Name starts as "" rather than null. A
  piece whose Name was never set, which makes `ToDictionary` throw
  ArgumentNull for a null key, is not modelled.
- GroupResources.GroupItem.constructor: Name starts as "" and Separator as
  "None". A null Name or Separator is not modelled.
- GroupResources.Group.Multiline: compares the ASCII upper-cased Separator.
  An item whose Separator was set to null, on which `Separator.Equals`
  throws NullReference, is not modelled.
- Rows.Attribute: a C# conversion of a string to `XName` throws for every
  name that is not a valid XML local name: ArgumentException for "", and
  XmlException for a name that is not an NCName, such as "1a" or "a b".
  This lookup gives None for all of them, so any such name is read as a
  missing attribute rather than throwing. "" arises for a group item whose
  Name was never set, because that Name starts as "" here (see
  GroupResources.GroupItem.constructor). The other names reach the lookup
  whenever `IsValidFieldName` accepts them; that validator is not part of
  this model.
- Borders.FromCustomColor: does not set the borders' owners. The collection
  initializer calls `Add`, which is defined in BaseSimpleModelCollection,
  and BaseSimpleModelCollection is not part of this model.
- Fields.FieldsCollection.GetRangeByHeaders: does not create the headers
  and aggregates lazily, as the source's getters do. It reads them as they
  stand. The same holds for GetRangeByLocation and GetRangeByType.

## Findings

| source | as written | input that shows it | evidently intended | confidence | as-written member | corrected member |
|---|---|---|---|---|---|---|
| src/Design/Shared/Table/Resources/Filters/Filter/Filter.cs:306-307 (also src/Design/Shared/Filters/Filter/BaseFilter.filter.cs:237-238) | NotEqualTo builds the same predicate as EqualTo: upper(attribute) == upper(Value) | A filter `A NotEqualTo x` keeps a row whose attribute A is "x" | NotEqualTo keeps exactly the rows EqualTo rejects | not executed | Filters.NotEqualToAsWritten | Filters.Filter.IntendedExpression |

`Filters.NotEqualToAsWritten` shows the defect on the builder, and
`Service.ModelService.RawDataFiltered` keeps it, as the service calls the
builder as written. The corrected builder is `Filters.BuildFilter`.
`Filters.NotEqualToNegates` proves that it negates EqualTo.
`Filters.Filter.IntendedExpression` and
`Service.ModelService.RawDataFilteredIntended` use it, and
`Service.RawDataFilteredIntendedMeaning` proves that the intended
NotEqualTo result is the complement of the as-written one.
