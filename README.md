# gopod, modelled in Dafny

gopod is an interactive command-line podcast tool written in Go. A numbered
menu reads a selection from standard input. Selection 5 reads an OPML
subscription file into a list of podcasts and inserts them into the `Podcast`
table of a SQLite database. Selection 1 lists that table ordered by name, then
by id. Selection 0 quits. The other entries only print a placeholder.

This project models the logic under that I/O:

- `Types.dfy`: the records. These are the decoded OPML item (`text`, `type`,
  `xmlUrl`), the podcast (id, name, URL, episode map), the stored table row,
  and the outcome of reading and decoding the file, which the model takes as
  an input.
- `Opml.dfy`: `readSubscriptionsFromOpml`. It allocates an array as long as
  the item list and fills it position by position. A file that cannot be read
  gives an empty list. XML that does not decode panics.
- `Menu.dfy`: `handleMenu`. The selection is converted as `strconv.Atoi` does
  on a 64-bit platform: an optional sign, then at least one decimal digit, and
  the value must fit in 64 bits. Any failure becomes -1. The result is the
  entry's action and whether the menu loop keeps running.
- `NoCase.dfy`: SQLite's NOCASE collation, used for the `name` column. ASCII
  capitals fold to lower case. Folded texts compare character by character,
  and a proper prefix sorts first. SQLite compares UTF-8 bytes, and for
  well-formed text that is the same order as comparing code points, which
  Dafny's `char` comparison does.
- `Store.dfy`: the `Podcast` table as a class holding a map from id (the
  primary key) to row. Import runs one insert per podcast, in order. An insert
  whose id is already taken fails, its error is ignored, and the loop goes on.
  An empty list writes nothing. Listing returns every row once, sorted by
  NOCASE name and then by id.

An unreadable OPML file is not an error: `readSubscriptionsFromOpml` returns an
empty list for it (gopod.go:286-306). Only an XML decode failure panics
(gopod.go:292-294).

## Model

| member | source | states |
|---|---|---|
| `Opml.ReadSubscriptionsFromOpml` | gopod.go:282-308 | An unreadable file gives `[]` and only malformed XML panics. For a decoded item list, the result has exactly one podcast per item. Podcast `i` has id `i`, the item's `text` as its name, its `xmlUrl` as its URL (an empty attribute stays empty) and no episodes. Nothing is deduplicated. |
| `Menu.DigitsValue` | gopod.go:144 | A digit string has a value exactly when it is non-empty and made only of decimal digits. |
| `Menu.ParseInt` | gopod.go:144 | A selection converts exactly when it is an optional `+`/`-` followed by one or more decimal digits. |
| `Menu.Atoi` | gopod.go:143-148 | The conversion succeeds exactly when the text is a numeral whose value fits in a 64-bit `int`, and then it gives that numeral's value. Otherwise it fails, and `handleMenu` uses -1. |
| `Menu.HandleMenu` | gopod.go:130-181 | The loop stops exactly when the selection converts to 0. It keeps running for every other input. 1 selects podcasts, 5 imports OPML, and 2, 3, 4, 6 and 7 each lead to their own placeholder entry. Anything that is not 0-7, including text that is not a number, runs no action and keeps running. |
| `Menu.DigitsValueOfFormatNat` | gopod.go:144 | Converting the decimal numeral of any natural number gives that number. |
| `Menu.ParseFormatInt` | gopod.go:144 | Converting the numeral of any integer, with its minus sign, gives that integer back. |
| `Menu.HandleFormattedNumber` | gopod.go:143-152 | Typing the numeral of any 64-bit integer `n` makes `handleMenu` switch on `n`. The loop stops exactly when `n` is 0. |
| `Menu.DigitsValueZero` | gopod.go:144 | A digit string has the value 0 exactly when it is one or more zeros. |
| `Menu.LeadingZero` | gopod.go:144 | A leading zero never changes the value of a non-empty digit string, so `007` converts to 7. |
| `Menu.SignedNumerals` | gopod.go:144 | For any unsigned text, a leading `+` converts the same as none, and a leading `-` gives the negated value (or fails exactly when the unsigned text fails). |
| `Menu.QuitSpellings` | gopod.go:150-152 | The menu stops for exactly the selections made of an optional sign and one or more zeros (`0`, `00`, `-0`, `+0`). |
| `NoCase.FoldChar` | gopod.go:62 | NOCASE folds `A`-`Z` to `a`-`z` and leaves every other character alone. |
| `NoCase.Fold` | gopod.go:62 | Folding keeps the length and folds each character on its own. |
| `NoCase.LexLessMeaning` | gopod.go:197 | The text order is binary lexicographic order. Either the first differing character decides, or the shorter text is a proper prefix of the other and sorts first. |
| `NoCase.LexLessIrreflexive` | gopod.go:197 | No text sorts before itself. |
| `NoCase.LexLessTransitive` | gopod.go:197 | The text order is transitive. |
| `NoCase.LexLessTotal` | gopod.go:197 | Of two different texts, one sorts before the other. |
| `Store.BeforeIrreflexive` | gopod.go:197 | Under `ORDER BY name, id`, no row sorts before itself. |
| `Store.BeforeTransitive` | gopod.go:197 | `ORDER BY name, id` is transitive. |
| `Store.BeforeTotal` | gopod.go:197 | Of two rows with different ids, one sorts before the other. The id breaks ties between names that are equal under NOCASE. |
| `Store.ImportKeepsRows` | gopod.go:260-269 | An import never changes a row that was already in the table. A duplicate id is skipped, not overwritten. |
| `Store.ImportKeys` | gopod.go:260-269 | After an import, the table's ids are the old ids plus the ids of the imported podcasts. No row is lost when an earlier insert fails. |
| `Store.ImportFirstWins` | gopod.go:265-267 | A podcast whose id is not in the table and not used earlier in the list is stored with its own name and URL. |
| `Store.ImportAllPresent` | gopod.go:265-267 | If every id in the list is already taken, the import leaves the table as it was. |
| `Store.ImportIdempotent` | gopod.go:239-269 | Importing the same podcasts a second time changes nothing. |
| `Store.ImportSubscriptionsIntoEmpty` | gopod.go:239-269 | Importing an OPML file's podcasts into an empty table stores one row per item, keyed by its position, holding the item's text and URL. |
| `Store.InsertSorted` | gopod.go:197 | Inserting a row with a new id into a sorted listing keeps it sorted. The result holds the old rows plus the new one. |
| `Store.SortedUnique` | gopod.go:197 | Two listings sorted by `name, id` that hold the same rows are equal. |
| `Store.ListingUnique` | gopod.go:197 | The listing of a table is fully determined by the table's contents. |
| `Store.ListingAfterFreshImport` | gopod.go:197 | After an OPML import into an empty table, the listing has as many rows as the file has items, and it shows each item with its position as id. |
| `Store.PodcastTable.constructor` | gopod.go:60-65 | Opening the database leaves the stored rows as they were (`CREATE TABLE IF NOT EXISTS`). |
| `Store.PodcastTable.Insert` | gopod.go:266 | One insert succeeds exactly when the id is new, and then adds that row. A failed insert leaves the table as it was. |
| `Store.PodcastTable.ImportPodcasts` | gopod.go:255-270 | The insert loop leaves the table equal to inserting the podcasts one by one, in order, skipping every failed insert. |
| `Store.PodcastTable.DoImportOpml` | gopod.go:228-280 | Malformed XML aborts. An unreadable file or an empty list reports that no subscriptions were found and writes nothing. Otherwise the podcasts read from the file are inserted. |
| `Store.PodcastTable.SelectPodcasts` | gopod.go:183-226 | The result holds every row of the table exactly once, as an id, name, URL and empty episode map, and nothing else. It is sorted by NOCASE name, then by id. |

## Left out

- The SQLite driver calls: opening the database, beginning the transaction, preparing the statement and committing (gopod.go:245-272), and running the schema script of `setupApplication` (gopod.go:40-108). Their only effect on the Podcast rows, that `CREATE TABLE IF NOT EXISTS` keeps the stored rows, is the contract of `Store.PodcastTable.constructor`. When `Begin` or `Prepare` fails, the source writes nothing; the model always takes the path where they succeed.
- Reading the OPML file and decoding its XML (gopod.go:286-290). These are file I/O and library parsing. Their outcome is the input `OpmlSource`.
- Terminal output and input: `displayBanner`, `clearScreen`, `displayMenu`, the `fmt.Print*` calls and the `fmt.Scanln` reads, including the panic when a read fails (gopod.go:110-141, 230-237). The selection and the outcome of the file read are parameters instead.
- The tables Episode, Subscription, Podcast_Episode and Settings. No code path reads or writes them.
- `main`'s loop (gopod.go:310-323). It only calls `handleMenu` until that returns false.
- Errors while scanning listed rows (gopod.go:208-222). They panic in the source, and the model's in-memory rows always scan.
- Menu.Atoi: assumes a 64-bit `int`. On a 32-bit platform Go's range is smaller.
- Store.PodcastTable.SelectPodcasts: `doSelectPodcast` prints each row; the model returns the ordered rows instead of printing them. The sorting is done by SQLite in the source. The model does it by insertion over the table's keys, and only the resulting order is claimed to match.
