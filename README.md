# CUBRID Manager trigger and broker-status models in Dafny

This project models two model classes of CUBRID Manager.

- `Trigger` is a database trigger definition. `Trigger.Builder` collects its twelve nullable text fields and normalises some of them:
  - the condition loses its surrounding blanks and one leading `if ` keyword;
  - the action is classified as `REJECT`, `INVALIDATE TRANSACTION`, `PRINT` (with the printed message extracted) or `OTHER STATEMENT`;
  - a numeric priority is reformatted with the pattern `##00.00`.

  `build` copies every field into an immutable record whose only mutable field is the description. The record's identity (`equals`, `hashCode`, `compareTo`) is its name. `TriggerAction.eval` maps a text back to its action constant.
- `BrokerStatusInfos` is one node of the answer tree of the `getbrokerstatus` task. It holds:
  - a broker name;
  - application-server entries and job entries, each appended only when absent (the job list is created lazily);
  - a list of sub-brokers, appended without any check.

  A lookup by name searches the direct children first, then the node itself, and falls back to a new empty node.

The model has four modules:

- `JavaStrings` (`java_strings.dfy`): the `java.lang.String` operations used, over `seq<char>`, with null as `Option.None`.
  - `trim`;
  - `startsWith`;
  - `replace(target, "")`, which deletes every occurrence;
  - ASCII lower-casing;
  - `compareTo`.
- `PriorityFormat` (`priority_format.dfy`):
  - the input grammar of `Double.parseDouble` as a predicate;
  - `formatPriority` on plain-digit integral decimals below 2^53 (digits, optionally a point and zeros).
- `TriggerModel` (`trigger.dfy`): the `TriggerAction` enumeration, the normalisation functions, and the `Builder` and `Trigger` classes. The setters are methods that update their fields and state the whole new field bundle.
- `BrokerModel` (`broker.dfy`): the `BrokerStatusInfos<A, J>` class. Its entry types are parameters.

In a few places the class comment or the usual reading of the code says something else. The model follows the code:

- The action keywords are tested on the untrimmed, case-sensitive text. A leading blank makes the action an `OTHER STATEMENT`.
- `PRINT` deletes every occurrence of `PRINT` in the action, not just the leading keyword. For example, `PRINT 'PRINTER'` stores `ER` (`PrintInsideMessageIsDeleted`).
- Only one `if ` is removed, and the rest is not trimmed again. `IF if x` is stored as `if x`, which still starts with the keyword (`ConditionStripsOnce`).
- The class comment describes the third evaluation order as `conditionTime=after`, but its example uses `deferred`. Neither is validated by the code, and the model stores both verbatim.

## Model

| member | source | states |
|---|---|---|
| JavaStrings.Trim | com.cubrid.common.core/src/com/cubrid/common/core/common/model/Trigger.java:143 | the trimmed text is no longer than the input and neither starts nor ends with a character at or below U+0020 |
| JavaStrings.TrimSurrounded | com.cubrid.common.core/src/com/cubrid/common/core/common/model/Trigger.java:143 | trimming a kept core surrounded by blanks gives exactly that core |
| JavaStrings.TrimOfTrimmed | com.cubrid.common.core/src/com/cubrid/common/core/common/model/Trigger.java:143 | trimming an already trimmed text changes nothing |
| JavaStrings.TrimStartRemovesPrefix | com.cubrid.common.core/src/com/cubrid/common/core/common/model/Trigger.java:143 | the leading part trim drops consists only of characters at or below U+0020 |
| JavaStrings.TrimEndRemovesSuffix | com.cubrid.common.core/src/com/cubrid/common/core/common/model/Trigger.java:143 | the trailing part trim drops consists only of characters at or below U+0020 |
| JavaStrings.TrimEndAppend | com.cubrid.common.core/src/com/cubrid/common/core/common/model/Trigger.java:143 | trailing blanks behind a kept character are all that trimming the end removes, whatever precedes them |
| JavaStrings.RemoveAll | com.cubrid.common.core/src/com/cubrid/common/core/common/model/Trigger.java:181-182 | deleting every occurrence of a non-empty pattern never lengthens the text; `RemoveAllWithoutOccurrence` and `RemoveAllLeftmost` together fix the result on every text |
| JavaStrings.RemoveAllWithoutOccurrence | com.cubrid.common.core/src/com/cubrid/common/core/common/model/Trigger.java:181-182 | `replace(p, "")` leaves a text without an occurrence of `p` unchanged |
| JavaStrings.RemoveAllKeepsPrefix | com.cubrid.common.core/src/com/cubrid/common/core/common/model/Trigger.java:181-182 | a prefix lacking the pattern's first character passes through unchanged |
| JavaStrings.RemoveAllLeftmost | com.cubrid.common.core/src/com/cubrid/common/core/common/model/Trigger.java:181-182 | the text before the leftmost occurrence is kept, that occurrence is deleted, and scanning resumes right after it |
| JavaStrings.StartsWith | com.cubrid.common.core/src/com/cubrid/common/core/common/model/Trigger.java:171-179 | a text starting with a non-empty prefix is non-empty and shares its first character, which is why the three keyword tests exclude each other |
| JavaStrings.CompareStrings | com.cubrid.common.core/src/com/cubrid/common/core/common/model/Trigger.java:258 | `String.compareTo` is zero for equal texts, and a zero result implies equal lengths; `CompareZeroIff` closes the converse |
| JavaStrings.CompareZeroIff | com.cubrid.common.core/src/com/cubrid/common/core/common/model/Trigger.java:258 | `String.compareTo` is zero exactly for equal texts |
| JavaStrings.CompareAntisymmetric | com.cubrid.common.core/src/com/cubrid/common/core/common/model/Trigger.java:258 | swapping the operands of `compareTo` negates the result |
| JavaStrings.CompareTransitive | com.cubrid.common.core/src/com/cubrid/common/core/common/model/Trigger.java:258 | "less than" by `compareTo` is transitive |
| PriorityFormat.FormatPriority | com.cubrid.common.core/src/com/cubrid/common/core/common/model/Trigger.java:333-336 | the formatted priority denotes the same integer, has at least two integer digits with no superfluous leading zero, ends in `.00`, and lies in the same domain |
| PriorityFormat.FormatPriorityIdempotent | com.cubrid.common.core/src/com/cubrid/common/core/common/model/Trigger.java:333-336 | formatting a formatted priority gives it back |
| PriorityFormat.ParsesAsDouble | com.cubrid.common.core/src/com/cubrid/common/core/common/model/Trigger.java:209 | `Double.parseDouble` rejects a text that is empty or blank after trimming |
| PriorityFormat.InFormatDomainParses | com.cubrid.common.core/src/com/cubrid/common/core/common/model/Trigger.java:209-210 | every text of the formatted domain is accepted by `Double.parseDouble`, so the builder formats it |
| PriorityFormat.FormatPriorityOfTwo | com.cubrid.cubridmanager.core.testfragment/src/com/cubrid/cubridmanager/core/cubrid/trigger/model/TriggerTest.java:111 | `"2"` is formatted as `"02.00"` |
| PriorityFormat.AbcDoesNotParse | com.cubrid.common.core/src/com/cubrid/common/core/common/model/Trigger.java:208-213 | a non-numeric text makes `Double.parseDouble` throw |
| PriorityFormat.NumeralValue | com.cubrid.common.core/src/com/cubrid/common/core/common/model/Trigger.java:334-335 | the decimal numeral the formatter prints denotes the formatted number |
| PriorityFormat.PadToTwoValue | com.cubrid.common.core/src/com/cubrid/common/core/common/model/Trigger.java:334 | the `00` integer part of the pattern pads to two digits without changing the value |
| TriggerModel.TriggerAction.Eval | com.cubrid.common.core/src/com/cubrid/common/core/common/model/Trigger.java:364-372 | `eval` returns the constant whose text equals the argument, and null exactly when no constant's text does |
| TriggerModel.Ordinal | com.cubrid.common.core/src/com/cubrid/common/core/common/model/Trigger.java:345-346 | each constant sits at its position in `values()` |
| TriggerModel.TriggerAction.Text | com.cubrid.common.core/src/com/cubrid/common/core/common/model/Trigger.java:345-356 | each action text is a non-empty upper-case keyword of letters and spaces |
| TriggerModel.TextInjective | com.cubrid.common.core/src/com/cubrid/common/core/common/model/Trigger.java:345-346 | the four action texts are pairwise distinct |
| TriggerModel.NormalizeCondition | com.cubrid.common.core/src/com/cubrid/common/core/common/model/Trigger.java:139-151 | the stored condition is a suffix of the trimmed text, three characters shorter exactly when that text starts with `if ` in any letter case, and the whole trimmed text otherwise |
| TriggerModel.ConditionDropsKeyword | com.cubrid.common.core/src/com/cubrid/common/core/common/model/Trigger.java:143-149 | surrounding blanks and one `if `/`IF `/`If `/`iF ` are removed, and what follows is kept |
| TriggerModel.IfKeywordIff | com.cubrid.common.core/src/com/cubrid/common/core/common/model/Trigger.java:144-146 | the lower-cased keyword test holds exactly when the text starts with `i` or `I`, then `f` or `F`, then a space |
| TriggerModel.ConditionOfIfYou | com.cubrid.cubridmanager.core.testfragment/src/com/cubrid/cubridmanager/core/cubrid/trigger/model/TriggerTest.java:91-106 | `"if you"` and `" if you "` are stored as `"you"` |
| TriggerModel.ConditionStripsOnce | com.cubrid.common.core/src/com/cubrid/common/core/common/model/Trigger.java:143-149 | the remainder is not re-trimmed and only one keyword is removed |
| TriggerModel.PrintMessage | com.cubrid.common.core/src/com/cubrid/common/core/common/model/Trigger.java:181-183 | the message is two characters shorter than the trimmed remainder, and no longer than the action |
| TriggerModel.KeywordsExclusive | com.cubrid.common.core/src/com/cubrid/common/core/common/model/Trigger.java:171-179 | at most one of the three keywords prefixes a text, so the order of the tests is immaterial |
| TriggerModel.ClassifyAction | com.cubrid.common.core/src/com/cubrid/common/core/common/model/Trigger.java:168-195 | the kind is `REJECT`, `INVALIDATE TRANSACTION` or `PRINT` exactly when the text starts with that keyword, and `OTHER STATEMENT` otherwise (null included); the first two store null, `PRINT` stores the message, and any other action is stored verbatim |
| TriggerModel.RejectDecides | com.cubrid.common.core/src/com/cubrid/common/core/common/model/Trigger.java:171-174 | `REJECT` followed by anything gives kind `REJECT` and a null action |
| TriggerModel.InvalidateDecides | com.cubrid.common.core/src/com/cubrid/common/core/common/model/Trigger.java:175-178 | `INVALIDATE TRANSACTION` followed by anything gives that kind and a null action |
| TriggerModel.PrintRoundTrip | com.cubrid.common.core/src/com/cubrid/common/core/common/model/Trigger.java:179-185 | `PRINT`, blanks and a delimited message without `PRINT` inside give back exactly the message |
| TriggerModel.PrintHello | com.cubrid.common.core/src/com/cubrid/common/core/common/model/Trigger.java:179-185 | `PRINT 'hello'` stores `hello` |
| TriggerModel.PrintTwelve | com.cubrid.cubridmanager.core.testfragment/src/com/cubrid/cubridmanager/core/cubrid/trigger/model/TriggerTest.java:96-109 | `PRINT12` stores the empty text |
| TriggerModel.PrintInsideMessageIsDeleted | com.cubrid.common.core/src/com/cubrid/common/core/common/model/Trigger.java:181-182 | a `PRINT` inside the message is deleted too |
| TriggerModel.ActionsOfTest | com.cubrid.cubridmanager.core.testfragment/src/com/cubrid/cubridmanager/core/cubrid/trigger/model/TriggerTest.java:94-109 | `REJECT1`, `INVALIDATE TRANSACTION1` and `PRINT12` are classified as the test expects |
| TriggerModel.OtherStatements | com.cubrid.common.core/src/com/cubrid/common/core/common/model/Trigger.java:189-192 | an action without a keyword, and null, become `OTHER STATEMENT` stored verbatim |
| TriggerModel.StoredPriority | com.cubrid.common.core/src/com/cubrid/common/core/common/model/Trigger.java:207-215 | a text that parses as a double is stored formatted, with the same value and as a fixed point of the formatter; any other text is stored as it is |
| TriggerModel.StoredPriorityIdempotent | com.cubrid.common.core/src/com/cubrid/common/core/common/model/Trigger.java:207-215 | passing a stored priority through `priority` again changes nothing |
| TriggerModel.StoredPriorityExamples | com.cubrid.common.core/src/com/cubrid/common/core/common/model/Trigger.java:207-215 | `"abc"` fails to parse and is stored as given (the catch path), and `"2"` is stored as `"02.00"`, the value `TriggerTest` pins |
| TriggerModel.Builder.constructor | com.cubrid.common.core/src/com/cubrid/common/core/common/model/Trigger.java:93-107 | a new builder has every field null |
| TriggerModel.Builder.Name | com.cubrid.common.core/src/com/cubrid/common/core/common/model/Trigger.java:109-112 | sets the name, null included, and nothing else |
| TriggerModel.Builder.ConditionTime | com.cubrid.common.core/src/com/cubrid/common/core/common/model/Trigger.java:114-117 | sets the condition time and nothing else |
| TriggerModel.Builder.EventType | com.cubrid.common.core/src/com/cubrid/common/core/common/model/Trigger.java:119-122 | sets the event type and nothing else |
| TriggerModel.Builder.TargetClass | com.cubrid.common.core/src/com/cubrid/common/core/common/model/Trigger.java:124-127 | sets the target class and nothing else |
| TriggerModel.Builder.TargetAttribute | com.cubrid.common.core/src/com/cubrid/common/core/common/model/Trigger.java:129-132 | sets the target attribute and nothing else |
| TriggerModel.Builder.Condition | com.cubrid.common.core/src/com/cubrid/common/core/common/model/Trigger.java:139-151 | null leaves the builder unchanged; any other text stores its normalised condition and nothing else |
| TriggerModel.Builder.ActionTime | com.cubrid.common.core/src/com/cubrid/common/core/common/model/Trigger.java:153-156 | sets the action time and nothing else |
| TriggerModel.Builder.ActionType | com.cubrid.common.core/src/com/cubrid/common/core/common/model/Trigger.java:158-161 | sets the action type and nothing else |
| TriggerModel.Builder.Action | com.cubrid.common.core/src/com/cubrid/common/core/common/model/Trigger.java:168-195 | overwrites both the action type and the action with the classification of the text, and nothing else |
| TriggerModel.Builder.Status | com.cubrid.common.core/src/com/cubrid/common/core/common/model/Trigger.java:197-200 | sets the status and nothing else |
| TriggerModel.Builder.Priority | com.cubrid.common.core/src/com/cubrid/common/core/common/model/Trigger.java:207-215 | stores the formatted priority for a number and the text otherwise, and nothing else |
| TriggerModel.Builder.Description | com.cubrid.common.core/src/com/cubrid/common/core/common/model/Trigger.java:217-224 | null leaves the builder unchanged; any other text is stored |
| TriggerModel.Builder.Build | com.cubrid.common.core/src/com/cubrid/common/core/common/model/Trigger.java:226-228 | returns a new trigger holding exactly the builder's twelve fields |
| TriggerModel.Trigger.FromBuilder | com.cubrid.common.core/src/com/cubrid/common/core/common/model/Trigger.java:231-244 | the private constructor copies every field of the builder |
| TriggerModel.Trigger.SetDescription | com.cubrid.common.core/src/com/cubrid/common/core/common/model/Trigger.java:246-249 | replaces the description, null included, and nothing else |
| TriggerModel.Trigger.CompareTo | com.cubrid.common.core/src/com/cubrid/common/core/common/model/Trigger.java:257-259 | the comparison is zero exactly when the names are equal |
| TriggerModel.Trigger.Equals | com.cubrid.common.core/src/com/cubrid/common/core/common/model/Trigger.java:267-269 | reflexive; false for null and for objects of another class without reading the name; for triggers true exactly when the names are equal |
| TriggerModel.Trigger.HashCode | com.cubrid.common.core/src/com/cubrid/common/core/common/model/Trigger.java:274-277 | the hash code is the string hash of the name and of nothing else |
| TriggerModel.EqualTriggersHashAlike | com.cubrid.common.core/src/com/cubrid/common/core/common/model/Trigger.java:266-277 | equal triggers have equal hash codes, whatever the string hash is |
| TriggerModel.CompareToOrdersByName | com.cubrid.common.core/src/com/cubrid/common/core/common/model/Trigger.java:257-269 | `compareTo` is zero exactly when `equals` holds, is antisymmetric and is transitive |
| TriggerModel.EqualsSymmetric | com.cubrid.common.core/src/com/cubrid/common/core/common/model/Trigger.java:267-269 | `equals` is symmetric |
| TriggerModel.EqualsOtherClass | com.cubrid.common.core/src/com/cubrid/common/core/common/model/Trigger.java:268 | `equals` with null or with another class is false, also for a trigger whose name is null |
| TriggerModel.SameNameSameIdentity | com.cubrid.common.core/src/com/cubrid/common/core/common/model/Trigger.java:257-277 | triggers with the same name are equal, compare as zero and hash alike, whatever their other fields |
| TriggerModel.TriggerTestScenario | com.cubrid.cubridmanager.core.testfragment/src/com/cubrid/cubridmanager/core/cubrid/trigger/model/TriggerTest.java:75-111 | the test's builder chain yields exactly the fields it asserts, and the built trigger equals itself, differs from null and compares as zero with itself |
| BrokerModel.AppendIfAbsent | com.cubrid.cubridmanager.core/src/com/cubrid/cubridmanager/core/broker/model/BrokerStatusInfos.java:71-73 | the entry is in the list afterwards; the old list is kept as a prefix; the list grows by one exactly when the entry was absent; duplicate-freedom is preserved |
| BrokerModel.AddAllDistinct | com.cubrid.cubridmanager.core/src/com/cubrid/cubridmanager/core/broker/model/BrokerStatusInfos.java:67-74 | after any run of additions a duplicate-free list is still duplicate-free |
| BrokerModel.AddAllKeepsPrefix | com.cubrid.cubridmanager.core/src/com/cubrid/cubridmanager/core/broker/model/BrokerStatusInfos.java:67-74 | after any run of additions the earlier entries are still in place, in order |
| BrokerModel.AddAllMembers | com.cubrid.cubridmanager.core/src/com/cubrid/cubridmanager/core/broker/model/BrokerStatusInfos.java:67-74 | after any run of additions the list holds exactly its earlier entries and the entries added |
| BrokerModel.AppendIfAbsentIdempotent | com.cubrid.cubridmanager.core/src/com/cubrid/cubridmanager/core/broker/model/BrokerStatusInfos.java:71-73 | adding the same entry twice is the same as adding it once |
| BrokerModel.BrokerStatusInfos.constructor | com.cubrid.cubridmanager.core/src/com/cubrid/cubridmanager/core/broker/model/BrokerStatusInfos.java:44-52 | a new node has a null name, an empty application-server list, a null job list and no sub-brokers |
| BrokerModel.BrokerStatusInfos.GetTaskName | com.cubrid.cubridmanager.core/src/com/cubrid/cubridmanager/core/broker/model/BrokerStatusInfos.java:54-56 | the task name is always `getbrokerstatus` |
| BrokerModel.BrokerStatusInfos.GetBname | com.cubrid.cubridmanager.core/src/com/cubrid/cubridmanager/core/broker/model/BrokerStatusInfos.java:113-115 | returns the stored broker name, null included |
| BrokerModel.BrokerStatusInfos.SetBname | com.cubrid.cubridmanager.core/src/com/cubrid/cubridmanager/core/broker/model/BrokerStatusInfos.java:113-124 | `getBname` returns the name just set, and nothing else changes |
| BrokerModel.BrokerStatusInfos.AddAsInfo | com.cubrid.cubridmanager.core/src/com/cubrid/cubridmanager/core/broker/model/BrokerStatusInfos.java:67-74 | a null list is first created; the entry is then appended unless already present; nothing else changes |
| BrokerModel.BrokerStatusInfos.AddBroker | com.cubrid.cubridmanager.core/src/com/cubrid/cubridmanager/core/broker/model/BrokerStatusInfos.java:81-83 | the sub-broker is appended unconditionally, and nothing else changes |
| BrokerModel.BrokerStatusInfos.AddJobInfo | com.cubrid.cubridmanager.core/src/com/cubrid/cubridmanager/core/broker/model/BrokerStatusInfos.java:99-106 | a null job list is first created; the entry is then appended unless already present; nothing else changes |
| BrokerModel.BrokerStatusInfos.GetSubBrokerByName | com.cubrid.cubridmanager.core/src/com/cubrid/cubridmanager/core/broker/model/BrokerStatusInfos.java:141-155 | null gives a new empty node; otherwise the first direct child with that name, else the node itself when it has that name, else a new empty node |
| BrokerModel.FirstNamed | com.cubrid.cubridmanager.core/src/com/cubrid/cubridmanager/core/broker/model/BrokerStatusInfos.java:146-150 | the position found is the first child with the name, or the end when no child has it |
| BrokerModel.FirstNamedAppend | com.cubrid.cubridmanager.core/src/com/cubrid/cubridmanager/core/broker/model/BrokerStatusInfos.java:146-150 | appending a node keeps the position of an earlier node with the name, and otherwise finds the appended node exactly when it bears the name |
| BrokerModel.LookupAfterAddBroker | com.cubrid.cubridmanager.core/src/com/cubrid/cubridmanager/core/broker/model/BrokerStatusInfos.java:81-155 | for any parent, after `addBroker(c)` with `c` named `n`, `getSubBrokerByName(n)` returns the first earlier sub-broker named `n` if there is one (possibly `c` itself, which `addBroker` may append twice), and `c` otherwise |

## Left out

- Getters of both classes (`getName`, `getTarget_att`, `getAsInfo`, `getJobInfo`, `getBrokerList` and the rest) are not written as members. The model reads the fields directly; only `getBname` is a function, `GetBname`.
- The getters of `BrokerStatusInfos` return its live lists; here the lists are values, so aliasing through a returned list is not modelled.
- The builder setters return nothing. The source's `return this` only serves call chaining, which the model writes out as a sequence of calls.
- TriggerModel.Trigger.HashCode: `String.hashCode` is a function parameter, not its polynomial formula. What is proved is that the hash depends on the name alone, so equal triggers hash alike.
- TriggerModel.Trigger.CompareTo and TriggerModel.Trigger.HashCode require a non-null name, and TriggerModel.Trigger.Equals requires one only when the argument is a trigger. The source throws `NullPointerException` exactly there; `equals` tests `instanceof` first, so null and other classes give false whatever the name.
- TriggerModel.Builder.Priority does not accept null. The source's `Double.parseDouble(null)` throws `NullPointerException`, which the `catch` does not cover.
- TriggerModel.Builder.Priority, TriggerModel.StoredPriority and PriorityFormat.FormatPriority require that a text which parses as a number lies in the integral domain of `FormatPriority`: after trimming, decimal digits followed by nothing or by a point and zeros, with a value below 2^53. Fractional, negative, exponent, hexadecimal, `NaN` or `Infinity` priorities and values of 2^53 or more are not modelled, and neither are integral texts of another spelling that Java parses, such as `+5`, `5d`, `5F` or `.0`. The same goes for `DecimalFormat`'s half-even rounding, its grouping, and the locale's decimal separator.
- TriggerModel.Builder.Action requires that a `PRINT` action leave at least two characters after deletion and trimming. For shorter remainders (`PRINT` alone, for example) the source throws `StringIndexOutOfBoundsException` from `substring`.
- TriggerModel.NormalizeCondition lower-cases ASCII letters only. The source uses the default locale, which differs for a few letters (the Turkish dotless i, for example).
- TriggerModel.PrintMessage cuts one Unicode scalar value from each end of the remainder, and TriggerModel.PrintMessageDefined counts its length in scalar values; Java's `substring` and `length` count UTF-16 code units. A remainder that begins or ends with a character beyond the Basic Multilingual Plane therefore loses that whole character here where Java drops only one of its surrogates and keeps the other, and a remainder that is exactly one such character is refused here where Java stores the empty text.
- TriggerModel.ClassifyAction and TriggerModel.Builder.Action inherit that difference through `PrintMessage`: for `PRINT` actions whose text begins or ends with a character beyond the Basic Multilingual Plane they store what `PrintMessage` gives, not Java's surrogate-split text.
- JavaStrings.CompareStrings compares characters of `seq<char>`. Java compares UTF-16 code units, which orders differently for characters beyond the Basic Multilingual Plane.
- The entries of `BrokerStatusInfos` are compared with Dafny equality, which stands for their `equals` methods. `ApplyServerInfo` and `JobInfo` are not part of this model.
- BrokerModel.BrokerStatusInfos.AddBroker takes a non-null node. Java accepts `addBroker(null)`, after which `getSubBrokerByName` throws `NullPointerException` at `bdd.getBname()` once its scan reaches that entry; the model's node type has no null, so that failure is not modelled.
- The source's test calls `targetAttribute(...)` and `getTargetAttribute()`, which `Trigger` does not declare (its names are `target_attribute` and `getTarget_att`). The model's `TargetAttribute` is the `target_attribute` setter.
- The condition time and action time are not validated by the code, so the model stores them verbatim.
- Nothing here is concurrent. The user-interface classes, `DBClasses` and the remaining files of the repository are not part of this model.
