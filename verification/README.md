# Question bank services in Dafny

A model of the service layer of the gurukulams question bank. It covers:

- `QuestionService`: create, read, update, delete and list questions of four kinds. CHOOSE_THE_BEST and MULTI_CHOICE carry choices. MATCH_THE_FOLLOWING carries choices, matches and pair rows. All other types carry only a text answer.
- `AnswerService.answer`: grading a submission against a question.
- `CategoryService` and `TagService`: two localized catalogs that are identical apart from their tables and one message.

The database is one immutable value, `Store.Db`. Each service call becomes a function from one `Db` to the next, together with the result the call returns. Thrown exceptions become `Failure` values of `Common.Error`. Writes already made before an exception stay in the returned `Db`, because the code runs without a transaction.

## Modules

| module | file | what it holds |
|---|---|---|
| `Wrappers`, `Common` | wrappers.dfy, common.dfy | `Option`, `Result`, the error kinds, timestamps |
| `Ids` | ids.dfy | ids as comma-free text, Java's `split(",")`, `joining(",")`, `order by id` |
| `Localization` | localization.dfy | the `LEFT JOIN` locale resolution every localized query uses |
| `Catalog`, `Categories`, `Tags` | catalog.dfy, categories.dfy, tags.dfy | the localized catalog, instantiated twice |
| `Store` | store.dfy | the tables: question rows, overlays, choice rows, pair rows, links |
| `Validation` | validation.dfy | `getViolations` |
| `QuestionRead` | question_read.dfy | `listChoices`, `fillChoices`, `read` |
| `QuestionCreate`, `CreateReadBack` | question_create.dfy, create_read_back.dfy | `create` and what a read sees right after it |
| `QuestionUpdate`, `UpdateProperties` | question_update.dfy, update_properties.dfy | `update` with its reconciliation of choices and pairs |
| `QuestionDelete` | question_delete.dfy | `delete`, `deleteChoices`, `deleteMatches` |
| `QuestionList` | question_list.dfy | `list`, `getQuestionIdFilter` |
| `Answer`, `GradeCreated` | answer.dfy, grade_created.dfy | `answer`, and grading a freshly created question |

### Where the code departs from its evident intent

In each of these cases the model follows the code.

- On read, the code's choices list is every choice row that is not a match (QuestionService.java lines 535-537). It is not the list of rows named on a pair's choice side.
- A MATCH_THE_FOLLOWING question with more matches than choices cannot be read back. The repository's own test `testCreateWtihExtraMatch` (MTFQuestionServiceTest.java line 61) expects such a create to return the question with all its matches. The code's surplus pair makes that read throw (see Findings).
- `update` has no "not found" error. It returns `null` when its last write changed no row (QuestionService.java line 693). Under a locale that last write is the overlay write or its fallback insert, so the question is read back even when the base row did not match.
- The list query puts the `answer` column in only for the owner (QuestionService.java lines 787 and 816), which shows that non-owners were meant not to see answers. Yet `list` fills the choices as if for the owner, so every caller sees the choices' flags (see Findings).
- `createChoice` stores FALSE for a choice whose flag is null (QuestionService.java lines 278-280). `updateChoice` writes the flag it is given, null included (lines 708-724), so a stored flag can still be null after an update.

## Model

Source paths are relative to the repository root.

| member | source | states |
|---|---|---|
| Validation.Violations | src/main/java/com/gurukulams/questionbank/service/QuestionService.java:877-973 | A blank text gives only the field violation. For MATCH_THE_FOLLOWING, "No choices" and "No matches" each hold iff that list is null or empty, and "Not Enough Matches" holds iff both lists are non-null and non-empty and there are more choices than matches. For the choice types exactly one of "Minimum 2 choices" or "At-least One Answer" can hold. For other types "Answer should not be empty" holds iff the answer is null. |
| Validation.ValidIff | src/main/java/com/gurukulams/questionbank/service/QuestionService.java:877-973 | A payload passes validation iff its text is not blank and it is well shaped for its type. |
| Localization.JoinedRowsResolve | src/main/java/com/gurukulams/questionbank/service/QuestionService.java:438-455 | Every row the localized `LEFT JOIN` keeps carries the overlay of exactly the requested locale when there is one, and the base value otherwise. |
| Localization.JoinCountValue | src/main/java/com/gurukulams/questionbank/service/QuestionService.java:391-403 | The localized query returns one row per base row when there is an overlay for the requested locale or no overlay at all. Otherwise it returns one row per overlay locale. |
| Localization.JoinRows | src/main/java/com/gurukulams/questionbank/service/QuestionService.java:391-403 | The joined rows of one base row are that many copies of the resolved row. |
| Localization.AgreeingJoin | src/main/java/com/gurukulams/questionbank/service/QuestionService.java:438-455 | What a localized query returns for a key depends only on that key's own overlay rows. |
| Localization.ListedIff | src/main/java/com/gurukulams/questionbank/service/CategoryService.java:199-211 | The list filter `LOCALE IS NULL OR LOCALE = ?` keeps a key iff it has no overlay at all or has one for the requested locale. |
| Localization.DropKeys | src/main/java/com/gurukulams/questionbank/service/CategoryService.java:232-234 | Deleting overlays by key keeps exactly the other keys' rows, with their values. |
| Catalog.Read | src/main/java/com/gurukulams/questionbank/service/CategoryService.java:94-135 | Returns nothing iff the id is absent. Without a locale it returns the base row. With a locale it returns the base row with the title of that locale's overlay, or the base title when there is none. |
| Catalog.Create | src/main/java/com/gurukulams/questionbank/service/CategoryService.java:59-84 | Fails with a store error iff the id is taken or an overlay is already stored under the id and the request locale. A taken id writes nothing. A clashing overlay fails after the base row went in, and that row stays. Otherwise the row is stored, stamped with its creator, plus an overlay under the locale, and the read in that locale returns the created entity. |
| Catalog.CreateOverOrphanOverlay | src/main/java/com/gurukulams/questionbank/service/CategoryService.java:64-83 | An overlay left under an id with no base row makes a create under that locale fail after the base row went in. The row then reads back stamped with its creator, and under the locale with the old overlay title. |
| Catalog.Update | src/main/java/com/gurukulams/questionbank/service/CategoryService.java:146-183 | Fails with the not-found message iff the id is absent. Other rows stay. The modifier is set. Without a locale the base title changes. With a locale the base title stays and that locale's overlay holds the new title. The returned entity is what a read then gives. |
| Catalog.List | src/main/java/com/gurukulams/questionbank/service/CategoryService.java:194-216 | Without a locale it lists every row. With one it lists, resolved, every entity the filter keeps. |
| Catalog.ListMembership | src/main/java/com/gurukulams/questionbank/service/CategoryService.java:199-211 | An entity appears in a localized list iff it has no overlay at all or has one for the requested locale. |
| Catalog.Delete | src/main/java/com/gurukulams/questionbank/service/CategoryService.java:227-236 | Removes the question links, the overlays and the row of the id. Returns true iff the row existed. |
| Catalog.DeleteThenRead | src/main/java/com/gurukulams/questionbank/service/CategoryService.java:227-236 | After a delete, the entity reads as absent in every locale and no link names it. |
| Catalog.UpdateKeepsOtherLocales | src/main/java/com/gurukulams/questionbank/service/CategoryService.java:159-173 | An update under one locale changes nothing that another locale, or no locale, reads, except the modifier. |
| Catalog.ListWithFallback | src/main/java/com/gurukulams/questionbank/service/CategoryService.java:94-135 | The list with the fallback the single read uses holds the read of every entity. When every row sits under its own id, it holds only entities whose id is stored. |
| Catalog.FallbackListMembership | src/main/java/com/gurukulams/questionbank/service/CategoryService.java:94-135 | Every entity appears in the list with the fallback, whatever overlays it has. |
| Catalog.ListDropsOtherLocales | src/main/java/com/gurukulams/questionbank/service/CategoryService.java:199-211 | Counterexample: a category localized only in French is missing from the German list, although the German read returns it. |
| Categories.Create | src/main/java/com/gurukulams/questionbank/service/CategoryService.java:59-84 | Only the category tables change. It fails iff the id is taken, which writes nothing, or an overlay already sits under the id and locale, which keeps the base row. Otherwise the category reads back as created, with and without the locale. |
| Categories.Read | src/main/java/com/gurukulams/questionbank/service/CategoryService.java:94-135 | The category's row, with the title resolved for the locale. |
| Categories.Update | src/main/java/com/gurukulams/questionbank/service/CategoryService.java:146-183 | An unknown id fails with "Category not found". Otherwise the category reads back with the new title, and under a locale the base title stays. |
| Categories.List | src/main/java/com/gurukulams/questionbank/service/CategoryService.java:194-216 | Every listed category is what a read of some id returns. Without a locale the list holds every category. |
| Categories.ListIff | src/main/java/com/gurukulams/questionbank/service/CategoryService.java:199-211 | A category is in a localized list iff it has no overlay or has one for that locale. |
| Categories.Delete | src/main/java/com/gurukulams/questionbank/service/CategoryService.java:227-236 | Returns true iff the category existed. Afterwards no question links to it, it reads as absent in every locale, and every other category reads as before in every locale. |
| Tags.Create | src/main/java/com/gurukulams/questionbank/service/TagService.java:58-83 | Only the tag tables change. It fails iff the id is taken, which writes nothing, or an overlay already sits under the id and locale, which keeps the base row. Otherwise the tag reads back as created, with and without the locale. |
| Tags.Read | src/main/java/com/gurukulams/questionbank/service/TagService.java:93-134 | The tag's row, with the title resolved for the locale. |
| Tags.Update | src/main/java/com/gurukulams/questionbank/service/TagService.java:145-182 | An unknown id fails with "tag not found". Otherwise the tag reads back with the new title, and under a locale the base title stays. |
| Tags.List | src/main/java/com/gurukulams/questionbank/service/TagService.java:193-215 | Every listed tag is what a read of some id returns. Without a locale the list holds every tag. |
| Tags.ListIff | src/main/java/com/gurukulams/questionbank/service/TagService.java:198-210 | A tag is in a localized list iff it has no overlay or has one for that locale. |
| Tags.Delete | src/main/java/com/gurukulams/questionbank/service/TagService.java:226-235 | Returns true iff the tag existed. Afterwards no question links to it, it reads as absent in every locale, and every other tag reads as before in every locale. |
| Store.RowsOf | src/main/java/com/gurukulams/questionbank/service/QuestionService.java:377-380 | The rows of one question, in table order: exactly the stored rows with that owner. |
| Store.PairsOf | src/main/java/com/gurukulams/questionbank/service/QuestionService.java:493-497 | The pair rows of one question, in table order. |
| QuestionCreate.NewRow | src/main/java/com/gurukulams/questionbank/service/QuestionService.java:266-290 | A created choice row gets the fresh id, the question's id and the value. It always stores a flag, and that flag is set exactly when the payload flagged the choice as an answer, so a null flag reads as not an answer. |
| QuestionCreate.CreateChoices | src/main/java/com/gurukulams/questionbank/service/QuestionService.java:336-346 | The new rows are appended to the choice rows in payload order. Nothing but the choice rows and their overlays changes. Without a locale, no overlay changes. |
| QuestionCreate.CreateChoicesNewKeys | src/main/java/com/gurukulams/questionbank/service/QuestionService.java:336-346 | Every overlay afterwards was there before, or belongs to an id the batch handed out and sits under the request locale. |
| QuestionCreate.CreateChoicesKeepsOthers | src/main/java/com/gurukulams/questionbank/service/QuestionService.java:336-346 | An overlay whose id the batch did not hand out keeps its value. |
| QuestionCreate.CreateChoicesValues | src/main/java/com/gurukulams/questionbank/service/QuestionService.java:336-346 | Under a locale, an id handed out once gets an overlay carrying its item's value. |
| QuestionCreate.CreateWrites | src/main/java/com/gurukulams/questionbank/service/QuestionService.java:139-209 | A valid create writes the base row, an overlay under a locale, the choice rows, then the match rows, then for MATCH_THE_FOLLOWING the pairs, and the category links. No tag table changes. |
| QuestionCreate.Create | src/main/java/com/gurukulams/questionbank/service/QuestionService.java:139-216 | An invalid payload writes nothing and reports every violation. A valid one performs the writes and returns the read of the new id, which may fail after the writes. |
| CreateReadBack.ReconstructPositional | src/main/java/com/gurukulams/questionbank/service/QuestionService.java:172-203 | The pairs a create builds positionally, choice i with match i, are rebuilt by the read into the same choices and matches, in order. This holds when every match has a counterpart choice, or when surplus pairs carry the match id in the match slot. |
| CreateReadBack.SurplusPairUnresolvable | src/main/java/com/gurukulams/questionbank/service/QuestionService.java:195-200 | The pair the code writes for a surplus match cannot be resolved by the read, so the rebuild fails. |
| CreateReadBack.CreatedFill | src/main/java/com/gurukulams/questionbank/service/QuestionService.java:477-540 | Right after a create, filling the new question yields exactly the rows it inserted, choices and matches apart. |
| CreateReadBack.CreatedHeader | src/main/java/com/gurukulams/questionbank/service/QuestionService.java:430-475 | Right after a create, the new row resolves in the create's locale to the payload's text and explanation. |
| CreateReadBack.CreateReadsBack | src/main/java/com/gurukulams/questionbank/service/QuestionService.java:139-216 | Create on fresh ids round-trips: the read returns the id, type, answer, text, explanation, author and time, and the inserted choice and match rows in order. This needs the corrected pairing, or no surplus match. |
| CreateReadBack.CreateThenRead | src/main/java/com/gurukulams/questionbank/service/QuestionService.java:139-216 | The create as written reads back what it wrote whenever no match is surplus. |
| CreateReadBack.SurplusCreateFails | src/main/java/com/gurukulams/questionbank/service/QuestionService.java:172-211 | The create as written, with more matches than choices, keeps its writes and fails with the exception `findFirst().get()` throws. |
| CreateReadBack.SurplusPairsUnreadable | src/main/java/com/gurukulams/questionbank/service/QuestionService.java:195-200 | The pairs a create as written stores for more matches than choices make the read's pass over the pairs fail. |
| QuestionRead.RowsFor | src/main/java/com/gurukulams/questionbank/service/QuestionService.java:391-418 | One stored choice yields one row without a locale, and as many resolved, masked copies as the join keeps with one. |
| QuestionRead.ListRows | src/main/java/com/gurukulams/questionbank/service/QuestionService.java:372-420 | Without a locale, `listChoices` gives each row once, with the flag masked for a caller other than the owner. It never yields fewer rows than are stored. |
| QuestionRead.ResolvedRows | src/main/java/com/gurukulams/questionbank/service/QuestionService.java:391-418 | The corrected listing gives each row exactly once, resolved and masked. |
| QuestionRead.ListRowsOnce | src/main/java/com/gurukulams/questionbank/service/QuestionService.java:391-418 | The listing as written equals the corrected one without a locale, or when no row is localized in another locale. |
| QuestionRead.ListRepeatsChoice | src/main/java/com/gurukulams/questionbank/service/QuestionService.java:391-418 | Counterexample: a choice localized in German and French, listed in Tamil, comes back twice. |
| QuestionRead.ListRowsAgree | src/main/java/com/gurukulams/questionbank/service/QuestionService.java:391-418 | A listing depends only on the listed rows' own overlays. |
| QuestionRead.FindById | src/main/java/com/gurukulams/questionbank/service/QuestionService.java:505-509 | `filter(id).findFirst()`: the first row with the id, and nothing iff no row has it or the id is null. |
| QuestionRead.PairedMatches | src/main/java/com/gurukulams/questionbank/service/QuestionService.java:503-516 | The first pass throws iff some pair with a choice id names a choice or match that is not among the rows. Otherwise it gives, in pair order, rows that are stored. |
| QuestionRead.Distractors | src/main/java/com/gurukulams/questionbank/service/QuestionService.java:519-530 | The second pass adds only stored rows: the match of each pair that has no choice id. |
| QuestionRead.Without | src/main/java/com/gurukulams/questionbank/service/QuestionService.java:535-537 | The rows not among the matches, in order. |
| QuestionRead.Reconstruct | src/main/java/com/gurukulams/questionbank/service/QuestionService.java:489-537 | The rebuild fails iff the first pass throws. Otherwise every match is a stored row, and the choices are exactly the stored rows that are not matches. |
| QuestionRead.FillChoicesAs | src/main/java/com/gurukulams/questionbank/service/QuestionService.java:477-540 | `fillChoices` sets choices for the choice types, and choices and matches for MATCH_THE_FOLLOWING. It never fails for the other types and leaves every other field alone. |
| QuestionRead.Read | src/main/java/com/gurukulams/questionbank/service/QuestionService.java:430-475 | An unknown id reads as empty, and a read of any type other than MATCH_THE_FOLLOWING succeeds. A found view carries the row's id, type, answer, author and times, with text and explanation from the locale's overlay or the base row. |
| QuestionRead.ReadAgree | src/main/java/com/gurukulams/questionbank/service/QuestionService.java:430-475 | A read depends only on the question's resolved row, its choice listing and its pair rows. |
| QuestionRead.ReadFailsOnPairs | src/main/java/com/gurukulams/questionbank/service/QuestionService.java:503-516 | When the pairs of a MATCH_THE_FOLLOWING question cannot be rebuilt, the read fails with the exception `findFirst().get()` throws. |
| QuestionUpdate.WriteBase | src/main/java/com/gurukulams/questionbank/service/QuestionService.java:560-579 | The base-row write touches only the row whose id and type both match. It sets the answer and modification time, and without a locale also the text and explanation. Creator, type and creation time stay. |
| QuestionUpdate.IdsIn | src/main/java/com/gurukulams/questionbank/service/QuestionService.java:611-621 | The ids the payload items carry, one per item that has an id. |
| QuestionUpdate.KeepRows | src/main/java/com/gurukulams/questionbank/service/QuestionService.java:644-661 | The choice `DELETE` keeps every row except the question's rows whose id is neither listed nor the question's own. |
| QuestionUpdate.Prune | src/main/java/com/gurukulams/questionbank/service/QuestionService.java:623-662 | With no id in the payload nothing is deleted. Otherwise the unlisted rows and the overlays of the question's unlisted ids go, and nothing is added. |
| QuestionUpdate.UpdateChoice | src/main/java/com/gurukulams/questionbank/service/QuestionService.java:708-724 | Every row with the id gets the item's flag. Without a locale it also gets the item's value. With a locale the overlay of that id and locale holds the value, and no other overlay changes. |
| QuestionUpdate.ApplyChoices | src/main/java/com/gurukulams/questionbank/service/QuestionService.java:663-669 | Items without an id add rows with fresh ids, and the others patch in place. Existing rows keep their ids, owners and, under a locale, values. |
| QuestionUpdate.UpdateMatch | src/main/java/com/gurukulams/questionbank/service/QuestionService.java:699-706 | Every pair keeps its question and match ids. The question's pairs with that match id get the new choice id, and every other pair is unchanged. |
| QuestionUpdate.UpdateMatchKeepsOthers | src/main/java/com/gurukulams/questionbank/service/QuestionService.java:699-706 | Every other question keeps its pair rows, in order. |
| QuestionUpdate.ApplyMatches | src/main/java/com/gurukulams/questionbank/service/QuestionService.java:670-691 | New matches add a row and a pair. Existing pairs keep their question and match ids in place. |
| QuestionUpdate.Reconcile | src/main/java/com/gurukulams/questionbank/service/QuestionService.java:606-692 | The reconciliation changes only choice rows, their overlays and pair rows. It never removes or reorders a pair. |
| QuestionUpdate.WriteQuestion | src/main/java/com/gurukulams/questionbank/service/QuestionService.java:560-604 | The question's own writes fail with a store error iff, under a locale, the overlay exists but the id and type match no row: the fallback insert then hits the key. Otherwise the overlay holds the payload's text and explanation. |
| QuestionUpdate.Update | src/main/java/com/gurukulams/questionbank/service/QuestionService.java:551-697 | Violations write nothing. The result is `null` iff there is no locale and the id and type match no row. A failed write keeps the base write. A returned question is what a read then gives. |
| QuestionUpdate.UpdateChecked | src/main/java/com/gurukulams/questionbank/service/QuestionService.java:693 | The corrected update returns `null` and writes nothing iff the id and type match no row, with or without a locale. Otherwise it is the update as written. |
| UpdateProperties.ReconcileExtends | src/main/java/com/gurukulams/questionbank/service/QuestionService.java:606-692 | After the deletion step, the surviving rows stay in place with their ids and owners, and rows with fresh ids follow. |
| UpdateProperties.ReconcileOverlays | src/main/java/com/gurukulams/questionbank/service/QuestionService.java:623-692 | Every overlay after the reconciliation was kept, or belongs to an id the payload carries or the update hands out. |
| UpdateProperties.ReconcileNoIds | src/main/java/com/gurukulams/questionbank/service/QuestionService.java:623 | With no id in the payload every old row and overlay stays in place. |
| UpdateProperties.UpdateDeletesAbsent | src/main/java/com/gurukulams/questionbank/service/QuestionService.java:606-692 | When the payload carries ids, none of the question's rows survives unless it is listed, is the question's own id, or is new, and a dropped row's overlays go. Otherwise everything stays. |
| UpdateProperties.UpdateKeepsQuestionText | src/main/java/com/gurukulams/questionbank/service/QuestionService.java:571-579 | A localized update keeps every question row's base text and explanation. |
| UpdateProperties.UpdateKeepsChoiceValues | src/main/java/com/gurukulams/questionbank/service/QuestionService.java:716-724 | A localized update leaves every choice row it did not create with the value of an old row with the same id and owner. |
| UpdateProperties.ReconcileKeepsValues | src/main/java/com/gurukulams/questionbank/service/QuestionService.java:606-692 | Under a locale, every choice row after the reconciliation has a fresh id or the value of an earlier row with the same id and owner. |
| UpdateProperties.UpdateKeepsBaseText | src/main/java/com/gurukulams/questionbank/service/QuestionService.java:551-697 | A localized update never overwrites base text, neither the question's nor a choice's. |
| UpdateProperties.UpdateKeepsPairs | src/main/java/com/gurukulams/questionbank/service/QuestionService.java:670-706 | An update never deletes a pair row. Old pairs keep their question and match ids in place. |
| UpdateProperties.UpdateThenRead | src/main/java/com/gurukulams/questionbank/service/QuestionService.java:551-697 | After updating a question of the given type, a read in the same locale sees the payload's text, explanation and answer and the update's time. Types other than MATCH_THE_FOLLOWING always read back. |
| UpdateProperties.UpdateRemovesChoices | src/main/java/com/gurukulams/questionbank/service/QuestionService.java:606-669 | A CHOOSE_THE_BEST or MULTI_CHOICE update whose items all carry ids leaves the question with exactly those of its old ids the payload lists, plus its own id. |
| UpdateProperties.PruneIdSet | src/main/java/com/gurukulams/questionbank/service/QuestionService.java:644-661 | The deletion step keeps exactly the question's ids that are listed or equal to the question's own id. |
| UpdateProperties.MismatchedLocaleUpdateWrites | src/main/java/com/gurukulams/questionbank/service/QuestionService.java:580-604 | Counterexample: under a locale, an update whose id and type match no row still inserts the overlay and reports a read instead of `null`. |
| QuestionDelete.DeleteMatches | src/main/java/com/gurukulams/questionbank/service/QuestionService.java:758-765 | Exactly the question's pair rows go, and nothing else changes. |
| QuestionDelete.DeleteChoices | src/main/java/com/gurukulams/questionbank/service/QuestionService.java:733-751 | Exactly the question's choice rows go, together with every overlay whose id one of them carries. |
| QuestionDelete.Delete | src/main/java/com/gurukulams/questionbank/service/QuestionService.java:981-1003 | The base row goes iff its stored type is the given one. The question's choices, overlays and category links go regardless. Its pairs go only for MATCH_THE_FOLLOWING. Tag links and catalogs stay. |
| QuestionDelete.OtherRowsOf | src/main/java/com/gurukulams/questionbank/service/QuestionService.java:748-750 | After the choice delete, the deleted question lists no rows and every other question lists the same rows in the same order. |
| QuestionDelete.OtherPairsOf | src/main/java/com/gurukulams/questionbank/service/QuestionService.java:762-764 | After the pair delete, the deleted question has no pairs and every other question keeps its pairs in order. |
| QuestionDelete.DeleteThenRead | src/main/java/com/gurukulams/questionbank/service/QuestionService.java:981-1003 | A delete with the stored type leaves nothing to read: no row, choice, overlay or category link, and for MATCH_THE_FOLLOWING no pair. |
| QuestionDelete.DeleteWrongType | src/main/java/com/gurukulams/questionbank/service/QuestionService.java:981-1003 | A delete with another type keeps the base row but still removes the choices and overlays. The pairs survive unless the given type is MATCH_THE_FOLLOWING. |
| QuestionDelete.DeleteKeepsOtherChoices | src/main/java/com/gurukulams/questionbank/service/QuestionService.java:733-751 | Another question's choice listing is unchanged in every locale, when the two questions' choice ids differ. |
| QuestionDelete.DeleteKeepsOtherPairs | src/main/java/com/gurukulams/questionbank/service/QuestionService.java:758-765 | Another question's pair rows are unchanged. |
| QuestionDelete.DeleteKeepsOtherRow | src/main/java/com/gurukulams/questionbank/service/QuestionService.java:991-1002 | Another question's row and its resolution in every locale are unchanged. |
| QuestionDelete.DeleteKeepsOthers | src/main/java/com/gurukulams/questionbank/service/QuestionService.java:981-1003 | Deleting one question changes nothing a read of another question sees, in any locale. |
| QuestionList.IntendedFilterIff | src/main/java/com/gurukulams/questionbank/service/QuestionService.java:859-868 | The intended filter keeps a question iff categories were asked for and it is linked to every one of them. |
| QuestionList.FilterDistinct | src/main/java/com/gurukulams/questionbank/service/QuestionService.java:859-868 | Without repeated categories, the filter as written is the intended one. |
| QuestionList.DuplicateCategoriesListNothing | src/main/java/com/gurukulams/questionbank/service/QuestionService.java:859-868 | Counterexample class: with a repeated category, the filter as written keeps no question. |
| QuestionList.ListedIds | src/main/java/com/gurukulams/questionbank/service/QuestionService.java:783-794 | The selected questions that exist, in strictly ascending id order, each once. |
| QuestionList.Header | src/main/java/com/gurukulams/questionbank/service/QuestionService.java:783-830 | A listed question has its answer NULL unless the caller is the owner, and its text resolved for the locale. |
| QuestionList.FillAll | src/main/java/com/gurukulams/questionbank/service/QuestionService.java:848-855 | Filling the listed questions fails iff filling one of them fails. Otherwise each view, in order, is that question filled. |
| QuestionList.List | src/main/java/com/gurukulams/questionbank/service/QuestionService.java:775-856 | No categories list nothing. Otherwise the list holds the selected questions in id order, each with its header and filled choices, and it fails iff filling one fails. |
| QuestionList.IntendedList | src/main/java/com/gurukulams/questionbank/service/QuestionService.java:775-856 | The corrected list uses the intended filter and shows answer flags only to the owner. |
| QuestionList.ListExactly | src/main/java/com/gurukulams/questionbank/service/QuestionService.java:775-868 | Without repeated categories, a successful list holds exactly the questions linked to every requested category, in id order. |
| QuestionList.IntendedListExactly | src/main/java/com/gurukulams/questionbank/service/QuestionService.java:775-868 | A successful corrected list holds exactly the questions linked to every requested category, in id order, with or without repetitions. |
| QuestionList.IntendedListedIds | src/main/java/com/gurukulams/questionbank/service/QuestionService.java:859-868 | The corrected filter selects exactly the stored questions linked to every requested category, and none for an empty list. |
| QuestionList.ListShowsFlags | src/main/java/com/gurukulams/questionbank/service/QuestionService.java:477-487 | Counterexample class: a caller other than the owner gets a listed choice question's choices with their stored flags. |
| QuestionList.ListRowsMasked | src/main/java/com/gurukulams/questionbank/service/QuestionService.java:382-396 | Every row listed for a caller other than the owner has a NULL flag. |
| QuestionList.FillHidesFlags | src/main/java/com/gurukulams/questionbank/service/QuestionService.java:477-540 | Filling for a caller other than the owner leaves every choice and match flag NULL. |
| QuestionList.IntendedListHidesFlags | src/main/java/com/gurukulams/questionbank/service/QuestionService.java:775-856 | In the corrected list a caller other than the owner sees neither an answer nor a flag. |
| Ids.Split | src/main/java/com/gurukulams/questionbank/service/AnswerService.java:68 | `split(",")` yields pieces without commas. |
| Ids.SplitJoinIds | src/main/java/com/gurukulams/questionbank/service/AnswerService.java:68 | Splitting the comma-joined text of some ids gives those ids back. |
| Ids.SortIds | src/main/java/com/gurukulams/questionbank/service/QuestionService.java:794 | `order by id`: the same ids, strictly ascending. |
| Answer.FirstFlagged | src/main/java/com/gurukulams/questionbank/service/AnswerService.java:50-53 | Returns the first flagged row when every earlier flag is false. Fails iff a NULL flag comes first, and returns nothing iff every flag is false. |
| Answer.FlaggedIds | src/main/java/com/gurukulams/questionbank/service/AnswerService.java:62-66 | Fails iff some flag is NULL. Otherwise returns the ids of exactly the flagged rows. |
| Answer.SetOf | src/main/java/com/gurukulams/questionbank/service/AnswerService.java:68 | `Set.of` fails iff a piece repeats. Otherwise it returns the pieces as a set of the same size. |
| Answer.ValidIds | src/main/java/com/gurukulams/questionbank/service/AnswerService.java:75-82 | `subList` fails iff there are fewer matches than choices. Otherwise the result is the ids of every choice and of the first as many matches. |
| Answer.GradeView | src/main/java/com/gurukulams/questionbank/service/AnswerService.java:48-96 | A type without choices grades false. For a choice type, a null choice list throws a `NullPointerException`, and so does a null match list for MATCH_THE_FOLLOWING. With both lists present, a MATCH_THE_FOLLOWING grading fails iff there are fewer matches than choices, with `IndexOutOfBounds`. A CHOOSE_THE_BEST grading can fail only on a null flag, and never fails when every flag is set. |
| Answer.GradeMultiChoice | src/main/java/com/gurukulams/questionbank/service/AnswerService.java:61-72 | The grading fails iff some flag is null, or some flag is set and the submission repeats a piece. A null flag gives `NullPointerException` and a repeat gives the duplicate-element error. With every flag set and none of them true, the answer is wrong whatever was submitted. |
| Answer.Grade | src/main/java/com/gurukulams/questionbank/service/AnswerService.java:40-99 | An unknown id or a type without choices grades false. A failing read fails the grading. Otherwise the grade is that of the question read without a locale. |
| Answer.ChooseTheBestIff | src/main/java/com/gurukulams/questionbank/service/AnswerService.java:49-60 | CHOOSE_THE_BEST is right iff the submission is the id of the first flagged choice. |
| Answer.ChooseTheBestFirst | src/main/java/com/gurukulams/questionbank/service/AnswerService.java:49-60 | With a flagged choice, the grade is whether the submission equals the first flagged id. |
| Answer.FlaggedCount | src/main/java/com/gurukulams/questionbank/service/AnswerService.java:62-67 | With distinct choice ids, the flagged id list is as long as its set, and is empty iff no choice is flagged. |
| Answer.MultiChoiceIff | src/main/java/com/gurukulams/questionbank/service/AnswerService.java:61-73 | MULTI_CHOICE with a flagged choice is right iff the submitted pieces, as a set, are the flagged ids. A repeated piece throws. |
| Answer.FlaggedIdsDistinct | src/main/java/com/gurukulams/questionbank/service/AnswerService.java:62-66 | With distinct choice ids, the flagged ids are distinct. |
| Answer.MultiChoiceAcceptsJoined | src/main/java/com/gurukulams/questionbank/service/AnswerService.java:61-73 | Submitting the flagged ids joined by commas is right. |
| Answer.MatchIff | src/main/java/com/gurukulams/questionbank/service/AnswerService.java:74-93 | MATCH_THE_FOLLOWING is right iff every submitted piece is the id of a choice or of one of the first matches, in any order and number. No choices means wrong. |
| Answer.MatchShortFails | src/main/java/com/gurukulams/questionbank/service/AnswerService.java:80-82 | A question read with fewer matches than choices cannot be graded. |
| GradeCreated.CreatedChoicesGradable | src/main/java/com/gurukulams/questionbank/service/QuestionService.java:266-290 | A valid CHOOSE_THE_BEST or MULTI_CHOICE create stores a flag on every row, distinct ids, and at least one set flag. |
| GradeCreated.CreatedMultiChoiceGradesFlagged | src/main/java/com/gurukulams/questionbank/service/AnswerService.java:61-73 | A MULTI_CHOICE question just created without a locale grades its flagged ids, joined by commas, as right. |
| GradeCreated.CreatedChooseTheBestGradesFirst | src/main/java/com/gurukulams/questionbank/service/AnswerService.java:49-60 | A CHOOSE_THE_BEST question just created without a locale grades exactly its first flagged choice's id as right. |

## Left out

- I/O, the data source and the SQL text are not modelled. Each query is modelled by the rows it selects or writes.
- `UUID.randomUUID()` and `LocalDateTime.now()` become parameters: a supply of fresh ids consumed in order, and a timestamp. Properties that need fresh ids require them to be distinct and unused.
- QuestionCreate.CreateWrites, QuestionCreate.Create: the supply's ids are not checked against the store. An id that collides with a stored question or choice id replaces the question entry or adds a second row with that id, where the store would raise a primary-key violation. UUID collisions are not modelled. The properties about a create require distinct ids unused in the store.
- QuestionUpdate.ApplyChoices, QuestionUpdate.ApplyMatches: likewise, a fresh id that collides with a stored choice id adds a second row with that id instead of failing on the primary key.
- Store.RowsOf, Store.PairsOf: the choice and pair SELECTs have no `ORDER BY`. The model returns rows in insertion order, which SQL does not guarantee. Several facts hold only under that assumption: the ordered round trips of CreateReadBack.CreateReadsBack and CreateReadBack.ReconstructPositional, the "same order" facts of QuestionDelete.OtherRowsOf and QuestionDelete.OtherPairsOf, and the "first flagged choice" grading of Answer.FirstFlagged and Answer.ChooseTheBestIff. Membership facts, such as which rows and which ids, do not depend on it.
- Transactions and concurrency are not modelled. Each call runs alone, and writes made before an exception stay.
- Bean validation is reduced to the one field rule the payload carries: the text must not be blank.
- Question types other than the three choice types are one type, `SingleLine`, because the services treat them alike.
- Null elements inside a choice list, a null `question` argument, a null submitted answer and a null `categories` list are not modelled. In the code each throws a `NullPointerException`. A null `categories` makes `create` throw after every write, at the category loop (QuestionService.java line 206), and makes `list` throw before any read, when `getQuestionIdFilter` streams it.
- The schema is assumed, because the table definitions are not part of this model. Overlays are keyed by (id, locale). There are no foreign keys, so orphan overlays and links can exist. Several properties take as a hypothesis that each question row sits under its own id (`Store.Keyed`).
- `attachCategory` is a set insert. A repeated category in a create's list is stored once. Whether the link table rejects the repeat depends on its key.
- Tag links of questions are never written by the question service. `delete(questionId, type)` leaves them in place, as the code does.
- The bulk `delete()` of each service, which empties every table, is not modelled.
- QuestionList.List: the localized list query has a malformed column list (`" AS answer"` runs straight into `"created_at"`) and no `order by`. It also has the same LEFT JOIN as `listChoices`: a question with no overlay in the requested locale comes back once per overlay it has in other locales. It is modelled as intended: each selected question once, in id order, resolved for the locale. That is a departure from the query on both counts. The duplication itself is shown for choices by QuestionRead.ListRepeatsChoice.
- QuestionList.List: with an empty category list the filter's `IN ()` selects no question, and the list is empty. PostgreSQL rejects `IN ()` as a syntax error, which is not modelled.
- QuestionRead.Read: a localized read can join several rows when the question has overlays only in other locales. All of them carry the same resolved values. The model returns that row; what the generated store's `optional()` does with more than one row is not part of this model.
- Catalog.List: SQL gives no order, so the list is a set of entities. Repeated rows collapse, as `SELECT DISTINCT` collapses them.
- Catalog.Create: the category id is the caller's. A taken id, or an overlay already stored under (id, locale), is a store error. The code would also throw from `read(...).get()` if the row could not be read back, which cannot happen after the inserts.

## Findings

| source | as written | input that shows it | evidently intended | confidence | as-written member | corrected member |
|---|---|---|---|---|---|---|
| src/main/java/com/gurukulams/questionbank/service/QuestionService.java:195-200 | A surplus match is stored as a pair with its id in the choice slot and a null match id. | A MATCH_THE_FOLLOWING create with choices [a] and matches [x, y]. The pair (q, y, null) makes the read's `findFirst().get()` look for a row with a null id, so it throws after the writes. | Store the surplus pair as (q, null, y), as `update` does for a new match (QuestionService.java lines 675-680) and as the read's second pass expects. | not executed | CreateReadBack.SurplusCreateFails | CreateReadBack.CreateReadsBack |
| src/main/java/com/gurukulams/questionbank/service/QuestionService.java:391-418 | The localized `listChoices` join has no `DISTINCT` and keeps one row per overlay when none is in the requested locale. | One choice with German and French overlays, listed in Tamil, comes back twice. | Each choice once, resolved for the locale. | not executed | QuestionRead.ListRepeatsChoice | QuestionRead.ListRowsOnce |
| src/main/java/com/gurukulams/questionbank/service/CategoryService.java:199-211 | The localized list filter lacks the fallback clause the single read has. | A category localized only in French is missing from the German list, although the German read returns it. | List every category, its title resolved with the read's fallback. | not executed | Catalog.ListDropsOtherLocales | Catalog.FallbackListMembership |
| src/main/java/com/gurukulams/questionbank/service/QuestionService.java:580-604 | Under a locale, the row count of the base update is overwritten by the overlay's count, and a missed overlay update falls back to an insert. | `update(type, unknownId, de, question)` inserts an orphan overlay for the unknown id and returns a read instead of `null`. | An update whose id and type match no row writes nothing and returns `null`. | not executed | UpdateProperties.MismatchedLocaleUpdateWrites | QuestionUpdate.UpdateChecked |
| src/main/java/com/gurukulams/questionbank/service/QuestionService.java:859-868 | `HAVING COUNT(DISTINCT category_id) =` compares with the list's length, repeats included. | Categories ["c", "c"] and a question linked to c: the count 1 never equals 2, so nothing is listed. | Compare with the number of distinct requested categories. | not executed | QuestionList.DuplicateCategoriesListNothing | QuestionList.IntendedListExactly |
| src/main/java/com/gurukulams/questionbank/service/QuestionService.java:477-487 | `fillChoices` always lists choices as the owner, so `list` masks the answer column but not the choices' flags. | A user other than "tom" lists a MULTI_CHOICE question and sees which choices are right. | A caller other than the owner sees no answer flag. | not executed | QuestionList.ListShowsFlags | QuestionList.IntendedListHidesFlags |
