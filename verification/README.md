# MegaferiaGUI back office, modelled in Dafny

MegaferiaGUI is the back office of a book fair. Its controllers register
authors, managers, narrators, publishers, stands and books. Each one checks
the text the forms submit, answers with a status code (OK, CREATED,
BAD_REQUEST, NOT_FOUND, CONFLICT), and stores accepted entities in one of six
in-memory repositories, each kept sorted by key. This project models that
validation-and-storage core and proves what each operation does:

- **Repositories** (`Repository.dfy`): one generic class with a key
  function stands for all six repositories (stands, publishers, narrators,
  managers, authors, books).
  - `save` appends, then sorts stably. `update` replaces the first entity
    with the same key. `findById` returns the first match. `findAll` returns
    the list.
  - Proved: the list stays sorted; `save` adds exactly one entity; a lookup
    finds what was saved; re-sorting a sorted list changes nothing.
- **Person controller** (`PersonController.dfy`): the identifier rule; the
  id → names → uniqueness order of checks; the invariant that no id is held
  twice across the author, manager and narrator repositories; nothing
  changes on failure.
- **Publisher controller** (`PublisherController.dfy`): the NIT pattern, NIT
  uniqueness, and a manager that must already exist.
- **Stand controller** (`StandController.dfy`):
  - `createStand` and its checks.
  - `buyStands`, which links the stored stand and publisher objects in
    place. Each selected stand gains each selected publisher once. Each
    selected publisher gains every selected stand once per time its NIT
    appears in the selection. Two NITs that differ only in surrounding
    whitespace pass the duplicate check and name the same publisher. Nothing
    is linked unless every check passes.
- **Book controller** (`BookController.dfy`):
  - The shared checks, in the source's order: title → authors → ISBN →
    genre/format/value → publisher. The first failure decides the status.
  - The checks of each book kind.
  - The three filters: by kind, by author, by format.
  - The search for the authors with the most distinct publishers.
- **Supporting modules**: `Text` (`trim`/`isBlank`), `Numbers` (integer and
  decimal parsing), `Patterns` (ISBN `NNN-N-NN-NNNNNN-N` and NIT
  `NNN.NNN.NNN-N`, each proved equal to an independent digit-group reading),
  `Keys` (numeric and `String.compareTo` order), `Lists` and `Entities`.

Entities that the source changes in place after storing them (stands and
publishers) are classes. Everything else is a value. Each check is a
function that says which status each input gets. The `create…` methods
follow the source's statements and are proved to agree with that function:
they return its status and change nothing on failure, and on success they
store exactly the checked entity.

Behaviours of the code that the model keeps as they are:

- An author list made only of null ids passes the author loop, which skips
  null ids. It produces a book with no authors, although the message at
  `BookController.java:397` says that at least one author must be selected;
  only a null or empty list is refused.
- The author search starts its maximum at -1, so an author whose count is 0
  (or any count above -1) is still selected.
- `trim` drops every character up to U+0020, while `isBlank` skips what
  `Character.isWhitespace` accepts. A text made of one control character
  such as U+0001 is therefore not blank but trims to nothing: a hyperlink
  made of it is kept as the empty text, and an id written `"\u0001" + "42"`
  is accepted as 42.
- `Double.parseDouble` reads exponents of any size and rounds: a positive
  value of at most 2^-1075 (such as `1e-400`) becomes 0 and is refused by
  the `> 0` checks; one of at least 2^1024 - 2^970 (such as `1e3000000000`)
  becomes infinity and is accepted.

## Model

| member | source | states |
|---|---|---|
| Common.Present | src/megaferia/controller/StandController.java:114-115 | the non-null ids, in order: no longer than the input, and an element is kept exactly when it occurs non-null in the input |
| Text.Trim | src/megaferia/controller/PersonController.java:163 | `trim`: the result neither starts nor ends with a character up to U+0020 |
| Text.TrimStrips | src/megaferia/controller/PersonController.java:163 | trimming keeps exactly the infix between the leading and the trailing whitespace |
| Text.TrimEmpty | src/megaferia/controller/PersonController.java:163 | `trim` leaves nothing exactly when every character is at most U+0020 |
| Text.BlankAndTrim | src/megaferia/controller/PersonController.java:159-163 | a text of the whitespace both notions share is blank and trims to nothing; U+0001 is not blank but is trimmed away, U+2000 is blank but is not trimmed |
| Text.TrimIdempotent | src/megaferia/controller/PersonController.java:163 | trimming twice is trimming once |
| Text.TrimPadded | src/megaferia/controller/PersonController.java:163 | trimming a text padded with characters up to U+0020 gives back the text between the padding |
| Numbers.ParseInteger | src/megaferia/controller/BookController.java:98-100 | `Integer.parseInt`/`Long.parseLong`: any value produced lies in the type's range |
| Numbers.StripLeadingZeros | src/megaferia/controller/PersonController.java:175 | `replaceFirst("^0+(?!$)", "")`: never longer, never empty for non-empty text, no leading zero unless a single character is left |
| Numbers.ParseId | src/megaferia/controller/PersonController.java:163-178 | the identifier rule (parses as a `long`, not negative, at most 15 characters after leading zeros): every accepted id lies in [0, 10^15) |
| Numbers.IdBound | src/megaferia/controller/PersonController.java:171-178 | a non-negative `long` with at most 15 significant characters is below 10^15 |
| Numbers.ParseIdDecimal | src/megaferia/controller/PersonController.java:163-178 | every id in [0, 10^15) written in plain decimal is accepted as itself |
| Numbers.ParseIdLeadingZeros | src/megaferia/controller/PersonController.java:175-176 | leading zeros in front of an accepted id do not change whether or how it is accepted |
| Numbers.LeadingZerosValue | src/megaferia/controller/PersonController.java:175 | stripping leading zeros keeps the digits and their value |
| Numbers.ParseDoubleDigits | src/megaferia/controller/BookController.java:451-462 | plain digits parse as their value, and pass the `> 0` check exactly when the value is nonzero |
| Numbers.NaNIsNotAtMostZero | src/megaferia/controller/StandController.java:68-77 | "NaN" parses and passes the `price <= 0` check, as Java's comparison with NaN is false |
| Numbers.ParseDouble | src/megaferia/controller/BookController.java:451-456 | `Double.parseDouble`: a number written with a leading minus is never accepted as above zero (NaN aside); exponents of any size are read, and values round to zero or infinity where Java rounds them so |
| Numbers.RoundAtMostZero | src/megaferia/controller/StandController.java:75-77 | Java's `value <= 0` on the rounded double is false exactly when the decimal is positive and does not round to zero, so a value too large to represent is still accepted |
| Numbers.ParseExponentAgrees | src/megaferia/controller/StandController.java:70-73 | the exponent reader accepts every integer text the integer reader accepts, with the same value, whatever the range, and refuses nothing it accepts |
| Patterns.IsbnAsGroups | src/megaferia/controller/BookController.java:31-32 | the ISBN position predicate accepts exactly the strings of digit groups 3-1-2-6-1 joined by dashes |
| Patterns.NitAsGroups | src/megaferia/controller/PublisherController.java:22-23 | the NIT position predicate accepts exactly the strings of digit groups 3.3.3-1 |
| Patterns.GroupsLength | src/megaferia/controller/BookController.java:31-32 | a string of digit groups is as long as the groups plus the separators |
| Patterns.Samples | src/megaferia/controller/PublisherController.java:22-23 | well-formed sample ISBN and NIT are accepted; ones with a misplaced separator are not |
| Patterns.IsIsbn | src/megaferia/controller/BookController.java:31-32 | `ISBN_PATTERN` read position by position; `Patterns.IsbnAsGroups` proves it equal to the digit-group reading 3-1-2-6-1 |
| Patterns.IsNit | src/megaferia/controller/PublisherController.java:22-23 | `NIT_PATTERN` read position by position; `Patterns.NitAsGroups` proves it equal to the digit-group reading 3.3.3-1 |
| Keys.StrLeTotal | src/megaferia/storage/BookRepository.java:44-46 | `String.compareTo` order: any two strings are comparable |
| Keys.StrLeTransitive | src/megaferia/storage/PublisherRepository.java:44-46 | `String.compareTo` order is transitive |
| Keys.StrLeAntisymmetric | src/megaferia/storage/BookRepository.java:44-46 | two strings each at most the other are equal |
| Keys.StrLeReflexive | src/megaferia/storage/BookRepository.java:44-46 | every string is at most itself |
| Keys.KeyLeTotal | src/megaferia/storage/AuthorRepository.java:44-46 | the repository key order is total |
| Keys.KeyLeTransitive | src/megaferia/storage/AuthorRepository.java:44-46 | the repository key order is transitive |
| Keys.KeyLeAntisymmetric | src/megaferia/storage/StandRepository.java:45-48 | two keys each at most the other are equal |
| Keys.KeyLeReflexive | src/megaferia/storage/StandRepository.java:45-48 | every key is at most itself |
| Lists.HasDuplicates | src/megaferia/controller/StandController.java:156-158 | `hasDuplicates`: true exactly when some element occurs twice |
| Lists.ElementsCount | src/megaferia/controller/StandController.java:156-158 | there are never more distinct elements than elements, and as many exactly when no element repeats |
| Lists.HasDuplicatesIff | src/megaferia/controller/StandController.java:156-158 | `hasDuplicates` holds exactly when two positions hold equal elements |
| Lists.DistinctAppend | src/megaferia/controller/BookController.java:404-416 | appending keeps a list duplicate-free exactly when the new element is not in it yet |
| Lists.AddAbsent | src/megaferia/controller/StandController.java:141-145 | adding absent items keeps the old list as a prefix, contains every item, and adds nothing else |
| Lists.AddAbsentPresent | src/megaferia/controller/StandController.java:143-144 | adding items already present changes nothing |
| Lists.AddAbsentIdempotent | src/megaferia/controller/StandController.java:141-145 | repeating the same purchase adds no publisher to a stand twice |
| Lists.AddAbsentDistinct | src/megaferia/controller/StandController.java:143-144 | a stand's publisher list without duplicates stays without duplicates |
| Lists.Rep | src/megaferia/controller/StandController.java:146 | a stand added n times: n copies |
| Lists.RepeatCount | src/megaferia/controller/StandController.java:141-147 | a publisher selected n times receives every selected stand n times: each element is counted n times as often |
| Lists.CountIsMultiplicity | src/megaferia/controller/StandController.java:141-147 | counting occurrences gives the multiplicity in the multiset of the list |
| Lists.CountConcat | src/megaferia/controller/StandController.java:141-147 | occurrences in a concatenation add up |
| Lists.RepCount | src/megaferia/controller/StandController.java:146 | a stand added n times occurs n times, and no other stand occurs |
| Repository.Repository.Save | src/megaferia/storage/BookRepository.java:14-18 | appends without a uniqueness check and re-sorts stably by key: the list is the stable sort of the old list plus the entity, stays sorted, grows by exactly the entity, and is the old list with the entity inserted at one position; the same code is in StandRepository.java, PublisherRepository.java, NarratorRepository.java, ManagerRepository.java and AuthorRepository.java |
| Repository.Repository.Update | src/megaferia/storage/BookRepository.java:21-30 | replaces the first entity with the same key in place and returns it; with none, answers null and changes nothing; the same code is in StandRepository.java, PublisherRepository.java, NarratorRepository.java, ManagerRepository.java and AuthorRepository.java |
| Repository.Repository.FindById | src/megaferia/storage/BookRepository.java:33-37 | the first entity with the key, and empty exactly when no entity has it; the same code is in StandRepository.java, PublisherRepository.java, NarratorRepository.java, ManagerRepository.java and AuthorRepository.java |
| Repository.Repository.FindAll | src/megaferia/storage/BookRepository.java:40-42 | the stored list itself, unchanged; the same code is in StandRepository.java, PublisherRepository.java, NarratorRepository.java, ManagerRepository.java and AuthorRepository.java |
| Repository.Sort | src/megaferia/storage/BookRepository.java:44-46 | sorting by key (id for stands, managers, narrators and authors; NIT for publishers; ISBN for books) keeps the length and the multiset of entities; StandRepository.java:45-48 sorts the same way |
| Repository.Repository.constructor | src/megaferia/storage/BookRepository.java:11 | a new repository is empty |
| Repository.Insert | src/megaferia/storage/BookRepository.java:44-46 | one stable insertion step adds exactly the entity |
| Repository.InsertSorted | src/megaferia/storage/AuthorRepository.java:44-46 | inserting into a sorted list keeps it sorted |
| Repository.SortSorted | src/megaferia/storage/BookRepository.java:44-46 | the stable sort produces a list in ascending key order |
| Repository.SortOfSorted | src/megaferia/storage/AuthorRepository.java:21-26 | re-sorting an already sorted list changes nothing |
| Repository.AppendThenSort | src/megaferia/storage/AuthorRepository.java:14-18 | on a sorted list, append-then-sort is one insertion |
| Repository.InsertAt | src/megaferia/storage/BookRepository.java:14-18 | the insertion lands after the last entity whose key is at most the new one |
| Repository.FirstIndex | src/megaferia/storage/BookRepository.java:33-37 | the index of the first entity with the key, or none when no entity has it |
| Repository.FindInserted | src/megaferia/storage/BookRepository.java:14-18 | after saving an entity with an unused key, looking that key up finds it |
| Entities.CloneBook | src/megaferia/controller/BookController.java:490-574 | the copy handed out equals the stored book as a value (authors, publisher with manager, narrator copied field by field) |
| Entities.Stand.constructor | src/megaferia/controller/StandController.java:84 | a new stand has the id and price and no publishers |
| Entities.Publisher.constructor | src/megaferia/controller/PublisherController.java:110-115 | a new publisher has the NIT, name, address and manager and no stands |
| Entities.Stand.AddPublisher | src/megaferia/controller/StandController.java:144 | `addPublisher` appends the publisher to the stand's list |
| Entities.Publisher.AddStand | src/megaferia/controller/StandController.java:146 | `addStand` appends the stand to the publisher's list |
| Entities.IdsMember | src/megaferia/controller/BookController.java:404-409 | an id is listed exactly when some entity carries it |
| Entities.IdsAppend | src/megaferia/controller/BookController.java:416 | listing ids distributes over concatenation |
| PersonController.ValidatePersonId | src/megaferia/controller/PersonController.java:158-181 | Ok exactly when the text is given, not blank, and its trimmed form follows the identifier rule, with that id in [0, 10^15); BadRequest otherwise |
| PersonController.ValidatePersonIdAccepts | src/megaferia/controller/PersonController.java:158-181 | any id below 10^15, with leading zeros and surrounded by characters up to U+0020 (what `trim` drops), is accepted as itself |
| PersonController.ValidatePersonIdMissing | src/megaferia/controller/PersonController.java:159-161 | a null or blank id is BadRequest |
| PersonController.IdsInsert | src/megaferia/controller/PersonController.java:67-68 | saving one person adds exactly its id to the multiset of ids |
| PersonController.UniqueAcrossSymmetric | src/megaferia/controller/PersonController.java:184-191 | uniqueness across the three repositories does not depend on their order |
| PersonController.InsertKeepsUnique | src/megaferia/controller/PersonController.java:63-68 | saving an author whose id is held nowhere keeps ids unique across the three repositories |
| PersonController.InsertKeepsUniqueSecond | src/megaferia/controller/PersonController.java:90-95 | the same for a manager |
| PersonController.InsertKeepsUniqueThird | src/megaferia/controller/PersonController.java:117-122 | the same for a narrator |
| PersonController.PersonController.constructor | src/megaferia/controller/PersonController.java:23-29 | a controller over the three repositories, with no notifications sent |
| PersonController.PersonController.ExistsPersonId | src/megaferia/controller/PersonController.java:184-191 | true exactly when an author, a manager or a narrator holds the id |
| PersonController.PersonController.CheckNewPerson | src/megaferia/controller/PersonController.java:52-65 | id rule, then both names given (BadRequest), then id unused across all three repositories (Conflict); Ok carries the parsed id, held by nobody |
| PersonController.PersonController.StoreAuthor | src/megaferia/controller/PersonController.java:67-72 | the author is saved, the other repositories are unchanged, "author" is notified, and cross-repository uniqueness is kept |
| PersonController.PersonController.StoreManager | src/megaferia/controller/PersonController.java:94-99 | the manager is saved, the others unchanged, "manager" notified, uniqueness kept |
| PersonController.PersonController.StoreNarrator | src/megaferia/controller/PersonController.java:121-126 | the narrator is saved, the others unchanged, "narrator" notified, uniqueness kept |
| PersonController.PersonController.CreateAuthor | src/megaferia/controller/PersonController.java:51-75 | on success exactly the author with the parsed id and trimmed names is added and a copy returned (Created); on failure the status of the first failed check and nothing changes; uniqueness is preserved |
| PersonController.PersonController.CreateManager | src/megaferia/controller/PersonController.java:78-102 | the same for managers |
| PersonController.PersonController.CreateNarrator | src/megaferia/controller/PersonController.java:105-129 | the same for narrators |
| PersonController.PersonController.GetAllAuthors | src/megaferia/controller/PersonController.java:131-138 | Ok with one copy (id and names) per stored author, same length and order |
| PersonController.PersonController.GetAllManagers | src/megaferia/controller/PersonController.java:140-147 | Ok with the stored managers, same length and order |
| PersonController.PersonController.GetAllNarrators | src/megaferia/controller/PersonController.java:149-156 | Ok with the stored narrators, same length and order |
| PublisherController.PublisherController.constructor | src/megaferia/controller/PublisherController.java:25-29 | a controller over the two repositories, with no notifications sent |
| PublisherController.PublisherController.CheckNewPublisher | src/megaferia/controller/PublisherController.java:56-107 | four texts given (BadRequest), trimmed NIT well formed (BadRequest), NIT unused (Conflict exactly when held), manager id rule (BadRequest), manager stored (NotFound exactly when not held); Ok exactly when every check passes, carrying the stored manager with that id |
| PublisherController.PublisherController.StorePublisher | src/megaferia/controller/PublisherController.java:110-116 | the publisher is saved in NIT order, a lookup of its NIT finds it, managers unchanged, "publisher" notified |
| PublisherController.PublisherController.CreatePublisher | src/megaferia/controller/PublisherController.java:51-135 | on success one new publisher (trimmed NIT, name, address, the stored manager, no stands) is saved and a copy returned (Created); on failure the first failed check's status and no change |
| PublisherController.PublisherController.GetAllPublishers | src/megaferia/controller/PublisherController.java:137-158 | Ok with one copy per stored publisher (with its manager), same length and order |
| StandController.LinkStand | src/megaferia/controller/StandController.java:142-147 | one stand gets each selected publisher it lacks, once; each selected publisher gets the stand once per occurrence of it in the selection |
| StandController.Link | src/megaferia/controller/StandController.java:141-148 | every selected stand gets the selected publishers not yet there; every selected publisher gets the selected stands in order, repeated once per occurrence of it in the selection |
| StandController.RepeatExtend | src/megaferia/controller/StandController.java:141-148 | one more selected stand extends the repeated stand list by that stand's copies |
| StandController.StandController.constructor | src/megaferia/controller/StandController.java:21-25 | a controller over the two repositories, with no notifications sent |
| StandController.StandController.CheckNewStand | src/megaferia/controller/StandController.java:47-82 | both texts given, id rule, price parses and is above zero (BadRequest otherwise), id unused (Conflict); Ok carries the id and price |
| StandController.StandController.StoreStand | src/megaferia/controller/StandController.java:84-89 | the stand is saved in id order, a lookup of its id finds it, publishers unchanged, "stand" notified |
| StandController.StandController.CreateStand | src/megaferia/controller/StandController.java:46-92 | on success one new stand (no publishers) is saved and an equal copy returned (Created); on failure the first failed check's status and no change |
| StandController.StandController.GetAllStands | src/megaferia/controller/StandController.java:94-101 | Ok with one copy (id, price) per stored stand, same length and order |
| StandController.StandController.FindByStandId | src/megaferia/controller/StandController.java:116-117 | a stand lookup succeeds exactly when a stored stand has the id |
| StandController.StandController.FindByNit | src/megaferia/controller/StandController.java:127-128 | a publisher lookup succeeds exactly when a stored publisher has the NIT |
| StandController.StandController.LookupStands | src/megaferia/controller/StandController.java:113-121 | the stands of the non-null ids; present exactly when every non-null id names a stored stand |
| StandController.StandController.LookupPublishers | src/megaferia/controller/StandController.java:124-132 | the publishers of the NITs that are neither null nor blank, after trimming; present exactly when each names a stored publisher |
| StandController.StandController.LookupStandsIds | src/megaferia/controller/StandController.java:113-121 | the stands looked up carry the non-null ids, one stand per id, in the order given |
| StandController.StandController.LookupPublishersNits | src/megaferia/controller/StandController.java:124-132 | the publishers looked up carry the trimmed NITs that are neither null nor blank, one per NIT, in the order given |
| StandController.StandController.CheckPurchase | src/megaferia/controller/StandController.java:104-140 | empty stand list, then empty NIT list (BadRequest); NotFound exactly when a stand or publisher is missing; Ok exactly when all are found and neither raw list repeats a value |
| StandController.StandController.CheckPurchaseSelection | src/megaferia/controller/StandController.java:113-140 | a purchase that passes its checks selects the stands of the non-null ids and the publishers of the named NITs, in the order given |
| StandController.StandController.BuyStands | src/megaferia/controller/StandController.java:104-154 | on success links as `Link` states, leaves every other stand and publisher alone, and notifies "stand" then "publisher"; on failure no stand or publisher changes |
| BookController.FirstFailure | src/megaferia/controller/BookController.java:390-474 | a chain of checks answers Ok exactly when all pass, else the status of the first that failed |
| BookController.FirstFailureOfFour | src/megaferia/controller/BookController.java:390-474 | for four checks, the first failure decides |
| BookController.FirstFailureOfTwo | src/megaferia/controller/BookController.java:86-109 | for two checks, the first failure decides |
| BookController.FirstFailureOfThree | src/megaferia/controller/BookController.java:198-251 | for three checks, the first failure decides |
| BookController.Hyperlink | src/megaferia/controller/BookController.java:153-175 | no hyperlink exactly when the argument is null or blank; otherwise the trimmed text, which trimming leaves as it is |
| BookController.HyperlinkOfControl | src/megaferia/controller/BookController.java:153-174 | a hyperlink of one control character is not blank, so it is kept, trimmed to the empty text |
| BookController.ParseCount | src/megaferia/controller/BookController.java:96-104 | `Integer.parseInt(x.trim())` with every exception caught: a null text fails, and any value lies in the `int` range |
| BookController.Selects | src/megaferia/controller/BookController.java:276-341 | the three filters' conditions: the labelled kind (or every book for "Todos los Libros"), an author with the id, exactly the format; `SelectMember` and `SelectCount` state what the filters return |
| BookController.SelectAppend | src/megaferia/controller/BookController.java:280-296 | filtering keeps stored order: it distributes over concatenation |
| BookController.SelectCount | src/megaferia/controller/BookController.java:280-296 | a kept book occurs exactly as often as it is stored, a dropped one never |
| BookController.SelectMember | src/megaferia/controller/BookController.java:280-296 | a book is in the result exactly when it is stored and the filter keeps it |
| BookController.SelectAllBooks | src/megaferia/controller/BookController.java:289-290 | "Todos los Libros" returns every stored book, in order |
| BookController.SelectUnknownLabel | src/megaferia/controller/BookController.java:283-291 | a label that is none of the four returns no book |
| BookController.Select | src/megaferia/controller/BookController.java:276-341 | a filter returns at most the stored books |
| BookController.Peak | src/megaferia/controller/BookController.java:351-363 | the search's maximum (starting at -1): at least -1, every count at most it, and attained by some author when above -1 |
| BookController.WithQuantity | src/megaferia/controller/BookController.java:351-363 | the authors with one count: no more than the input, each having that count |
| BookController.WithQuantityMember | src/megaferia/controller/BookController.java:354-362 | an author is selected exactly when it is stored with that count |
| BookController.WithQuantityAbsent | src/megaferia/controller/BookController.java:356-359 | no author with the count: nothing selected |
| BookController.WithQuantitySorted | src/megaferia/controller/BookController.java:365 | selecting from an id-ordered list leaves it in id order, so the sort keeps it as it is |
| BookController.MostPublishersFound | src/megaferia/controller/BookController.java:343-379 | with authors present and no negative count, some author is selected and every selected author's count is at least every author's |
| BookController.MostPublishers | src/megaferia/controller/BookController.java:351-363 | the search loop returns exactly the authors with the maximum count, in stored order |
| BookController.CopyAuthors | src/megaferia/controller/BookController.java:367-374 | one copy (id and names) per author, same order |
| BookController.BookController.constructor | src/megaferia/controller/BookController.java:34-42 | a controller over the four repositories, with no notifications sent |
| BookController.BookController.ResolveAuthors | src/megaferia/controller/BookController.java:400-417 | the author loop answers Ok, BadRequest or NotFound, and carries a list of authors exactly when Ok |
| BookController.BookController.ResolveAuthorsIds | src/megaferia/controller/BookController.java:400-417 | on success the resolved authors' ids are the non-null submitted ids, in submission order |
| BookController.BookController.ResolveAuthorsStored | src/megaferia/controller/BookController.java:404-413 | on success each resolved author is a copy of the stored author with that id |
| BookController.BookController.ResolveAuthorsStatus | src/megaferia/controller/BookController.java:400-417 | the author loop succeeds exactly when the non-null ids are pairwise distinct and all stored; BadRequest means a repeated id, NotFound an unknown one |
| BookController.BookController.ResolveAuthorsFailureStays | src/megaferia/controller/BookController.java:404-415 | a failure on a prefix of the ids is the answer for the whole list |
| BookController.BookController.AlreadyResolved | src/megaferia/controller/BookController.java:404-409 | the inner scan finds an id exactly when a resolved author carries it |
| BookController.BookController.CollectAuthors | src/megaferia/controller/BookController.java:400-417 | the author loop computes the author stage's answer |
| BookController.BookController.AuthorsStage | src/megaferia/controller/BookController.java:390-417 | the title-and-authors stage answers Ok, BadRequest or NotFound, and carries authors exactly when Ok |
| BookController.BookController.AuthorsStageStatus | src/megaferia/controller/BookController.java:390-417 | null or blank title or empty list is BadRequest; Ok exactly when the title is given, the list is not empty and the non-null ids are distinct and stored; NotFound only for an unknown id; Ok carries authors with exactly those ids |
| BookController.BookController.IsbnStage | src/megaferia/controller/BookController.java:419-434 | the ISBN stage answers Ok, BadRequest or Conflict; Ok carries an ISBN that is well formed and not stored |
| BookController.BookController.IsbnStageStatus | src/megaferia/controller/BookController.java:419-434 | Ok exactly when the ISBN is given, well formed once trimmed and not stored; Conflict exactly when well formed and stored; Ok carries the trimmed ISBN |
| BookController.BookController.DetailsStage | src/megaferia/controller/BookController.java:436-462 | the genre, format and value stage answers Ok or BadRequest; Ok carries a value above zero |
| BookController.BookController.DetailsStageStatus | src/megaferia/controller/BookController.java:436-462 | Ok exactly when genre, format and value are given and the trimmed value parses above zero; Ok carries the parsed value |
| BookController.BookController.PublisherStage | src/megaferia/controller/BookController.java:464-476 | the publisher stage answers Ok, BadRequest or NotFound, and carries a publisher exactly when Ok |
| BookController.BookController.PublisherStageStatus | src/megaferia/controller/BookController.java:464-476 | BadRequest exactly when the NIT is missing, NotFound exactly when the trimmed NIT is not stored; Ok carries a copy of the stored publisher with that NIT |
| BookController.BookController.CheckCommon | src/megaferia/controller/BookController.java:382-488 | the common checks carry book data exactly when Ok, and then its ISBN is well formed and not stored |
| BookController.BookController.CheckCommonOrder | src/megaferia/controller/BookController.java:382-488 | the stages run in order title and authors, ISBN, details, publisher, and the first failure decides the status; Ok carries the trimmed title, genre and format, the resolved authors, the trimmed ISBN, the value and the publisher |
| BookController.BookController.ValidateCommonBookData | src/megaferia/controller/BookController.java:382-488 | the straight run of early returns computes the common checks' answer |
| BookController.BookController.ValidatePrintedBook | src/megaferia/controller/BookController.java:86-109 | the early returns of the printed-book checks compute the printed-book checks' answer and change nothing |
| BookController.BookController.ValidateDigitalBook | src/megaferia/controller/BookController.java:143-175 | the same for the digital-book checks |
| BookController.BookController.ValidateAudiobook | src/megaferia/controller/BookController.java:198-251 | the same for the audiobook checks, narrator lookup included |
| BookController.BookController.NarratorStage | src/megaferia/controller/BookController.java:209-238 | the narrator stage answers Ok, BadRequest or NotFound, and carries a narrator exactly when Ok |
| BookController.BookController.NarratorStageStatus | src/megaferia/controller/BookController.java:209-238 | BadRequest exactly when the narrator id is missing or breaks the identifier rule; NotFound exactly when no stored narrator has it; Ok carries that stored narrator |
| BookController.BookController.CheckPrinted | src/megaferia/controller/BookController.java:86-109 | the printed-book checks carry a book exactly when Ok, and then its ISBN is not stored |
| BookController.BookController.CheckPrintedOrder | src/megaferia/controller/BookController.java:86-109 | the common checks first, then pages and copies both `int`s above zero (BadRequest); Ok carries the printed book built from the common data |
| BookController.BookController.CheckDigital | src/megaferia/controller/BookController.java:143-175 | the digital-book checks carry a book exactly when Ok, and then its ISBN is not stored |
| BookController.BookController.CheckDigitalOrder | src/megaferia/controller/BookController.java:143-175 | only the common checks decide the status; Ok carries the digital book with the kept hyperlink |
| BookController.BookController.CheckAudio | src/megaferia/controller/BookController.java:198-251 | the audiobook checks carry a book exactly when Ok, and then its ISBN is not stored |
| BookController.BookController.CheckAudioOrder | src/megaferia/controller/BookController.java:198-251 | the common checks, then the narrator, then duration an `int` above zero (BadRequest); the first failure decides; Ok carries the audiobook with the stored narrator |
| BookController.BookController.StoreBook | src/megaferia/controller/BookController.java:123-127 | the book is saved in ISBN order, a lookup of its ISBN finds it, other repositories unchanged, "book" notified |
| BookController.BookController.CreatePrintedBook | src/megaferia/controller/BookController.java:76-131 | on success exactly the checked book is saved in ISBN order, a lookup of its ISBN finds it, "book" is notified and the answer is Created with it; on failure the first failed check's status, and the books and notifications are unchanged; authors, publishers and narrators never change |
| BookController.BookController.CreateDigitalBook | src/megaferia/controller/BookController.java:134-185 | the same for digital books |
| BookController.BookController.CreateAudiobook | src/megaferia/controller/BookController.java:188-273 | the same for audiobooks |
| BookController.BookController.Filter | src/megaferia/controller/BookController.java:280-296 | the filtering loop returns copies of exactly the kept books, in stored order |
| BookController.BookController.GetBooksByType | src/megaferia/controller/BookController.java:276-299 | Ok with the stored books of the labelled kind, in ISBN order |
| BookController.BookController.GetBooksByAuthor | src/megaferia/controller/BookController.java:301-322 | NotFound exactly when no stored author has the id; otherwise Ok with the books listing it, in order |
| BookController.BookController.GetBooksByFormat | src/megaferia/controller/BookController.java:324-341 | BadRequest exactly when the format is null or blank; otherwise Ok with the books of exactly that format, in order |
| BookController.BookController.GetAuthorsWithMostDifferentPublishers | src/megaferia/controller/BookController.java:343-379 | Ok with copies of exactly the authors with the largest count (counted from -1), in ascending id order; empty when there are no authors |

## Left out

- Observers: `registerObserver`, `removeObserver` and the `update` callbacks are not modelled. The tags each controller notifies are recorded, in order, in a ghost `events` sequence.
- Response messages: the Spanish text attached to each response is dropped; only the status and the payload are kept.
- `Double.parseDouble` is modelled for decimal text, `NaN` and `Infinity`, with an optional sign and type suffix. Rounding is modelled only where it yields zero or infinity, which is all the `<= 0` checks can see; any other value is kept as the exact decimal rather than the nearest double, so a stored price or book value is not the rounded number. Hexadecimal floating-point literals are not accepted.
- `Long.parseLong` and `Integer.parseInt` accept ASCII digits only; other Unicode digits are not modelled.
- `isBlank` is modelled on characters, as `Character.isWhitespace` of each UTF-16 unit; characters outside the Basic Multilingual Plane are never whitespace, so this agrees with Java.
- `String.compareTo` is modelled on characters. Java compares UTF-16 code units, which differs only for characters outside the Basic Multilingual Plane.
- `Author.getPublisherQuantity` is a stored field of the author. `core.Author` is not part of this model, so how the count is kept up to date is not modelled.
- A stored book keeps copies of its authors (id and names) and a value copy of its publisher. The source keeps references to the stored objects; aliasing between a book and later changes to its publisher's stand list is not modelled.
- A publisher's manager and an audiobook's narrator are stored by value.
- `Stand.addPublisher` and `Publisher.addStand` are modelled as appends to a list.
- A null list argument is modelled as an empty list; both are refused with BAD_REQUEST.
- The Java loops of `buyStands` and `validateCommonBookData` are split into helper methods and step lemmas. The order in which they look at the inputs is the source's.
- Entities.CloneBook: the copy equals the original as a value. The fresh Java objects it allocates are not modelled.
- `MegaferiaMain` and the GUI are not part of this model.
