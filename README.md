# Bookstore marketplace, modelled in Dafny

This project models the request handlers of a small bookstore marketplace
backend, an ASP.NET minimal API over an EF Core/SQLite context. In this
marketplace:

- users register and log in;
- sellers list, edit and remove their own books;
- buyers buy books against a stored budget;
- each side lists its own books or orders.

The model also covers the `BookRepository` that the book handlers call.

The store is the four tables of `AppDbContext`: users, books, categories and
orders. Each table is a sequence in storage order, with an AUTOINCREMENT key
counter that starts at 1. Tables are sequences, not sets or maps, because
`FirstOrDefault` and `Where` depend on row order.

The store is kept in two forms:

- `Data.AppDbContext` is a class whose fields the handlers update in place.
- `Data.Tables` is the value of those fields, returned by `AppDbContext.Snapshot()`.

Each handler is modelled twice:

- A pure step function in `Marketplace` maps the tables before the request to the tables after it and the HTTP result. For example, `BuyStep(t, callerId, bookId, now)` returns `(t', Ok)`.
- An imperative method in `Program` does the handler's steps in the handler's order. It is proved to end in exactly the step function's result and to keep the store invariant `Data.Invariant`.

`Data.Invariant` is the conjunction of three properties:

- keys are positive, unique, increasing and below their counter;
- every book's category and seller exist, and every order's book and buyer exist;
- category names are unique.

The handlers' promises are proved as lemmas about the step functions in
`MarketplaceProperties`.

Modules:

- `Linq`: `FirstOrDefault`, `Where` and `Select` on sequences.
- `Models`, `Dtos`: the entities and the DTOs as datatypes.
- `Data`: the tables, key lookup (`Find`), write-back (`ReplaceByKey`), removal (`RemoveByKey`, and `DeleteBook` with its cascade), insertion under the next key, the invariants, and the `AppDbContext` class.
- `Repositories`: the `BookRepository` class.
- `Marketplace`: the step functions of the handlers.
- `MarketplaceProperties`: lemmas about the step functions.
- `Program`: the handler bodies as methods over the context.

Things the program does, which the model keeps as they are:

- A missing book on edit or delete answers Forbid, like another seller's book.
- Prices and budgets are not validated for sign.
- Usernames are not checked for uniqueness, and login picks the first user with the name.
- A bought book stays listed and can be bought again.
- Removing a book also removes its orders. An order's `BookId` is a non-nullable foreign key (Models/Book.cs:30-31), so EF Core makes the relationship required and deletes its dependents by cascade.
- `Include` of a required navigation is an inner join. Since every reference resolves (`Data.Invariant`), no row is dropped by it, and the model reads the tables directly.

Substitutions for things the model cannot run:

- `decimal` amounts are `int` (smallest currency unit): the arithmetic is exact.
- `DateTime.UtcNow` is the parameter `now`.
- BCrypt's hash and verify are the function parameters `hash` and `verify`.
- The caller's id, parsed from the token's "UserId" claim, is an input.

## Model

| member | source | states |
|---|---|---|
| Linq.FirstOrDefault | Program.cs:103 | the result, when there is one, is an element of the sequence that satisfies the predicate; there is no result exactly when no element satisfies it |
| Linq.Where | Program.cs:198 | the result holds exactly the elements that satisfy the predicate and is no longer than the input |
| Linq.FirstOrDefaultIsFirst | Program.cs:103 | the element answered is the earliest match: no element before its position satisfies the predicate |
| Linq.Select | Program.cs:115-123 | the projection has one entry per element, in order, each the selector applied to that element |
| Linq.FirstOrDefaultAppend | Program.cs:103 | appending a row never changes an answer the lookup already had; the new row is found only when no earlier row matches |
| Linq.WhereAppend | Program.cs:206 | filtering a table with one more row filters the old rows and then the new one |
| Linq.WhereKeepsAll | Repositories/IBookRepository.cs:22 | when every row passes the filter, the filter returns the table unchanged |
| Linq.WhereIdempotent | Repositories/IBookRepository.cs:22 | filtering twice with the same predicate is filtering once |
| Data.Find | Repositories/IBookRepository.cs:22 | the row found carries the requested key; there is no row exactly when no row has that key |
| Data.ReplaceByKey | Repositories/IBookRepository.cs:21 | writing back a tracked row keeps the table's length |
| Data.RemoveByKey | Repositories/IBookRepository.cs:22 | the rows left are exactly the stored rows whose key differs from the removed one |
| Data.FindAfterRemove | Repositories/IBookRepository.cs:22 | removing the rows under one key leaves every other stored key stored |
| Data.InsertUser | Program.cs:95-96 | the user is appended after every stored user under the next key, the counter advances, valid keys stay valid, and no other table changes |
| Data.InsertBook | Repositories/IBookRepository.cs:20 | the book is appended after every stored book under the next key, the counter advances, valid keys stay valid, and no other table changes |
| Data.InsertCategory | Program.cs:135-137 | the category is appended after every stored category under the next key, the counter advances, valid keys stay valid, and no other table changes |
| Data.InsertOrder | Program.cs:188-190 | the order is appended after every stored order under the next key, the counter advances, valid keys stay valid, and no other table changes |
| Data.DeleteBook | Repositories/IBookRepository.cs:22 | the books left are exactly those without the id, the orders left are exactly those not for that book (the cascade), and no other table changes |
| Data.FindUnique | Repositories/IBookRepository.cs:19 | with unique keys, the lookup answers a row exactly when that row is stored under the key |
| Data.FindAfterAppend | Repositories/IBookRepository.cs:20 | a row inserted under the next key is found by that key, and every other lookup is unchanged |
| Data.AppendKeepsKeyedBelow | Repositories/IBookRepository.cs:20 | inserting under the next key and advancing the counter keeps the keys unique, positive and below the counter |
| Data.ReplaceByKeyAt | Repositories/IBookRepository.cs:21 | after the write-back, each position holds the new row if it had the row's key and the old row otherwise |
| Data.ReplaceKeepsKeyedBelow | Repositories/IBookRepository.cs:21 | a write-back changes no key, so the key invariant holds |
| Data.FindAfterReplace | Repositories/IBookRepository.cs:21 | after the write-back, the row's key finds the new row (if the key was stored) and every other lookup is unchanged |
| Data.ConsKeepsKeyedBelow | Repositories/IBookRepository.cs:22 | a row whose key is valid and below every later key can head a keyed table |
| Data.WhereKeepsKeyedBelow | Repositories/IBookRepository.cs:22 | removing rows keeps the remaining keys increasing, positive and below the counter |
| Data.AppDbContext.constructor | DTOs/AppDbContext.cs:3-9 | a new context holds four empty tables with every counter at 1, and satisfies the store invariant |
| Repositories.BookRepository.constructor | Repositories/IBookRepository.cs:16 | the repository works on the given context |
| Repositories.BookRepository.GetAll | Repositories/IBookRepository.cs:18 | returns the whole book table in storage order, with nothing dropped or added |
| Repositories.BookRepository.GetById | Repositories/IBookRepository.cs:19 | a returned book is stored and has the requested id; the answer is none exactly when no stored book has that id |
| Repositories.BookRepository.Add | Repositories/IBookRepository.cs:20 | the book is appended under the next key (the id passed in is ignored), the counter advances, keys stay valid, the new id finds the book, and every other id finds what it found before |
| Repositories.BookRepository.Update | Repositories/IBookRepository.cs:21 | a stored book with that id is replaced by the given book and nothing else changes; an unknown id changes nothing and is reported |
| Repositories.BookRepository.Delete | Repositories/IBookRepository.cs:22 | a stored book is deleted together with its orders (`Data.DeleteBook`); an absent id changes nothing; keys stay valid, the books left are exactly the old ones without that id, and the id no longer finds a book |
| Repositories.DeleteIsIdempotent | Repositories/IBookRepository.cs:22 | deleting the same id twice is deleting it once |
| Repositories.DeleteAbsentIsNoop | Repositories/IBookRepository.cs:22 | deleting an id no book carries leaves the table as it was |
| Marketplace.RegisterStep | Program.cs:86-97 | registration appends, after every stored user and under the next key, a user with the requested name, budget and role and the hash of the name followed by "123"; no other table changes |
| Marketplace.Login | Program.cs:101-108 | a token names a stored user with the requested name whose hash verifies against the name followed by "123"; a name no user bears is rejected |
| Marketplace.ToBookDto | Program.cs:115-123 | the projection copies the book's id, title, author and price, and shows "" for a category or seller that is not stored |
| Marketplace.BooksView | Program.cs:112-123 | GET /books has one entry per stored book, in storage order, carrying that book's id, title, author and price |
| Marketplace.ResolveCategory | Program.cs:132-138 | the category answered bears the requested name and is the first with that name in the resulting table; an existing one leaves the store unchanged; only the category table and its counter can change |
| Marketplace.AddBookStep | Program.cs:126-150 | listing answers only Ok or Forbid; Forbid changes nothing; Ok adds exactly one book and leaves users and orders untouched |
| Marketplace.Edited | Program.cs:160-162 | an edit takes title, author and price from the request and keeps the book's id, category and seller |
| Marketplace.EditBookStep | Program.cs:156-164 | editing answers only Ok or Forbid; Forbid changes nothing; only the book table changes, and neither its length nor any of its keys |
| Marketplace.RemoveBookStep | Program.cs:170-175 | removing answers only Ok or Forbid; Forbid changes nothing; only the books and, by the cascade, the orders change |
| Marketplace.Purchase | Program.cs:187-190 | the save of a purchase keeps the number of users, appends one order for this book and this buyer under the next key after every stored order, and changes nothing but the users, the orders and the order counter |
| Marketplace.BuyStep | Program.cs:181-191 | a purchase answers only Ok, NotFound or "Not enough money"; a refusal changes nothing; books and categories never change |
| Marketplace.MyBooks | Program.cs:198 | /mybooks holds exactly the stored books whose seller is the caller |
| Marketplace.MyOrdersAsWritten | Program.cs:206-213 | /myorders as written has one entry per order of the caller, in storage order, with the order's id and date, the title of its book, and buyer "" |
| Marketplace.MyOrders | Program.cs:206-213 | /myorders with the buyer loaded has one entry per order of the caller, in storage order, with the order's id and date, the title of its book and the name of its buyer |
| MarketplaceProperties.RegisterKeepsInvariant | Program.cs:86-97 | registering appends a user under the next key and keeps every store invariant |
| MarketplaceProperties.LoginChecksFirstNamesake | Program.cs:103-108 | only the first stored user with the requested name is considered: a token goes to that user, and login is rejected exactly when no user has the name or the first one's hash does not verify |
| MarketplaceProperties.RegisterThenLogin | Program.cs:86-108 | if verification accepts what hashing produced, logging in after registering yields the new user, unless an earlier user has the same name, who keeps answering to it |
| MarketplaceProperties.ResolveCategoryIsIdempotent | Program.cs:132-138 | resolving the same category name twice finds what the first call found or created, and changes nothing more |
| MarketplaceProperties.AddBookRequiresSeller | Program.cs:128-130 | listing answers Forbid exactly when the caller is not stored or is not a seller |
| MarketplaceProperties.AddBookListsUnderCategory | Program.cs:132-149 | on success the book is appended under the next key with the requested title, author and price and the caller as seller, under the first category with the exact name; an existing category is reused, otherwise exactly one is created; users and orders are untouched |
| MarketplaceProperties.AddBookTwiceSharesCategory | Program.cs:132-148 | two books listed under the same category name get the same category, and the second listing creates none |
| MarketplaceProperties.AddBookKeepsInvariant | Program.cs:126-150 | listing a book keeps every store invariant, unique category names included |
| MarketplaceProperties.ResolveCategoryKeepsInvariant | Program.cs:132-138 | resolving a category keeps every store invariant and returns a stored category |
| MarketplaceProperties.InsertBookKeepsInvariant | Program.cs:140-148 | inserting a book whose category and seller are stored keeps every store invariant |
| MarketplaceProperties.EditBookChecksOwner | Program.cs:156-158 | editing answers Forbid exactly when no book has the id or its seller is not the caller |
| MarketplaceProperties.EditBookChangesOnlyThatBook | Program.cs:156-164 | a successful edit sets the book's title, author and price, keeps its id, category and seller, and changes no other row of any table |
| MarketplaceProperties.EditBookKeepsInvariant | Program.cs:154-165 | editing keeps every store invariant |
| MarketplaceProperties.RemoveBookChecksOwner | Program.cs:170-172 | removing answers Forbid exactly when no book has the id or its seller is not the caller |
| MarketplaceProperties.RemoveBookDeletesOnlyThatBook | Program.cs:170-175 | a successful removal deletes exactly the book with that id and, by the cascade, exactly the orders of that book |
| MarketplaceProperties.RemoveBookKeepsInvariant | Program.cs:168-176 | removing keeps every store invariant; thanks to the cascade no remaining order names the removed book |
| MarketplaceProperties.OnlyTheOwnerChangesABook | Program.cs:156-175 | if an edit or a removal changes the store, a stored book with that id is sold by the caller |
| MarketplaceProperties.BuyFailureCauses | Program.cs:181-185 | a purchase answers NotFound exactly when the caller or the book is missing, and "Not enough money" exactly when both exist and the budget is below the price |
| MarketplaceProperties.BuyDebitsAndRecords | Program.cs:185-191 | a successful purchase sets the buyer's budget to the old budget minus the price, which is not negative, and changes no other user; it appends exactly one order for this book and this caller under the next key; books and categories stay as they were |
| MarketplaceProperties.BuyStepOk | Program.cs:181-191 | a successful purchase has a stored caller and book, a budget that covers the price, and is the debit-and-record of that pair |
| MarketplaceProperties.PurchaseDebitsOnlyTheBuyer | Program.cs:187-190 | the debit-and-record writes back only the buyer's row, with the price taken off, and appends one order linking the buyer and the book |
| MarketplaceProperties.BuyKeepsBudgetsNonNegative | Program.cs:185-187 | when no budget is negative before a purchase, none is after it |
| MarketplaceProperties.BuyKeepsInvariant | Program.cs:179-192 | a purchase keeps every store invariant |
| MarketplaceProperties.PurchaseKeepsInvariant | Program.cs:187-190 | the debit-and-record of a stored book by a stored user keeps every store invariant |
| MarketplaceProperties.BuyExtendsOnlyCallersOrders | Program.cs:187-190 | a successful purchase adds the new order to the caller's order list and leaves everyone else's unchanged |
| MarketplaceProperties.BookCanBeBoughtAgain | Program.cs:185-190 | a bought book stays listed, and the same buyer can buy it again while the remaining budget covers the price |
| MarketplaceProperties.ToBookDtoProjects | Program.cs:121-122 | since keys are unique, a book's projection names the very category and seller rows that the book's keys point to |
| MarketplaceProperties.BooksViewResolvesNames | Program.cs:114-123 | since references resolve, each entry of GET /books names the book's stored category and seller, never the "" fallback |
| MarketplaceProperties.MyOrdersNamesTheBuyer | Program.cs:206-213 | in the corrected /myorders, each entry belongs to a stored order of the caller and shows the title of that order's stored book and the caller's own username |
| MarketplaceProperties.MyOrdersAsWrittenDiffersOnlyInBuyer | Program.cs:206-213 | the query as written and the corrected one list the same orders with the same id, title and date; only the buyer differs |
| MarketplaceProperties.MyOrdersAsWrittenDropsBuyer | Program.cs:206-213 | in a store that keeps every invariant, where "alice" has bought her own book "Dune" once, the query as written answers buyer "" where the corrected one answers "alice" |
| Program.Register | Program.cs:86-97 | the new user (hash of the name followed by "123") is stored under the next key; the store invariant holds; the result is Ok |
| Program.LoginHandler | Program.cs:103-108 | answers as `Marketplace.Login`; a token names a stored user with the requested name |
| Program.GetBooks | Program.cs:112-123 | answers one DTO per stored book, as `Marketplace.BooksView` |
| Program.AddBook | Program.cs:126-150 | ends in the state and result of `Marketplace.AddBookStep` and keeps the store invariant |
| Program.FindOrCreateCategory | Program.cs:132-138 | ends in the state and category of `Marketplace.ResolveCategory` |
| Program.EditBook | Program.cs:154-165 | ends in the state and result of `Marketplace.EditBookStep` and keeps the store invariant |
| Program.RemoveBook | Program.cs:168-176 | ends in the state and result of `Marketplace.RemoveBookStep` and keeps the store invariant |
| Program.Buy | Program.cs:179-192 | ends in the state and result of `Marketplace.BuyStep` and keeps the store invariant |
| Program.SavePurchase | Program.cs:187-190 | the store becomes `Marketplace.Purchase` of the old store: buyer debited, order inserted |
| Program.GetMyBooks | Program.cs:195-200 | answers `Marketplace.MyBooks`: exactly the stored books whose seller is the caller, in storage order |
| Program.GetMyOrders | Program.cs:203-213 | answers /myorders as written (`Marketplace.MyOrdersAsWritten`): one entry per order of the caller, each with buyer "" |

## Findings

| source | as written | input that shows it | evidently intended | confidence | as-written member | corrected member |
|---|---|---|---|---|---|---|
| Program.cs:206-211 | the query loads only each order's book (`Include(o => o.Book)`), so `o.User` is never loaded and every entry's `Buyer` is "" | a user "alice" with id 1 and one order of hers, then GET /myorders as alice: the buyer comes back as "" | `Buyer` holds the buyer's username, which the `OrderDto` field exists for | high, not executed | MarketplaceProperties.MyOrdersAsWrittenDropsBuyer | MarketplaceProperties.MyOrdersNamesTheBuyer |

`Marketplace.MyOrdersAsWritten` models the query as written, and `Program.GetMyOrders`
answers with it. `Marketplace.MyOrders` is the corrected query, with the buyer's row
loaded; `MarketplaceProperties.MyOrdersAsWrittenDiffersOnlyInBuyer` shows that the two
differ only in the buyer.

## Left out

- JWT creation and validation (Repositories/JwtHelper.cs) are library crypto. The caller's id is an input, and the login result names the user a token would be issued for. The `key.Length < 32` rejection never fires with the constant key in Program.cs:15, which is 36 characters long.
- BCrypt hashing and verification are foreign calls. They are the parameters `hash` and `verify`. `BCrypt.HashPassword` draws a fresh random salt on every call, so two registrations of the same name store different hashes; a deterministic function `hash` is an idealisation of that. `RegisterThenLogin` assumes only that `verify` accepts what `hash` produced, which holds for every salt.
- async/await, concurrency and transaction isolation are not modelled. Each handler is one atomic sequential step, so the race on a buyer's budget and the race to create a category are not modelled.
- ASP.NET routing, the HTTP mapping of `Results.*`, Swagger, CORS, authorization middleware, the browser launch and the migration at startup are plumbing. Results are the `Outcome` datatype.
- The `int.Parse` of the "UserId" claim is not modelled: the token is issued by this program, so the claim is always an integer.
- `DateTime.UtcNow` is the parameter `now`.
- `SellerProfile` is used by no handler.
- The relationship configuration in `AppDbContext` is modelled only through its effects: the references in `Data.ReferencesResolve` and the cascade from a book to its orders in `Data.DeleteBook`. Removing a user or a category is not modelled, since no handler does it.
- `decimal` range and scale are not modelled: amounts are unbounded integers, so a price or budget beyond `decimal`'s range is not rejected.
- Repositories.BookRepository.Update: for a book that is not stored, the model reports `found == false` and changes nothing. EF Core instead tracks a book whose `Id` is 0 as Added and inserts it under the next key, and throws on `SaveChangesAsync` for any other unknown id. The handlers never reach either case, because they fetch the book first.
- Repositories.BookRepository.Add: the id the book carries is ignored and the next key is used; an explicit nonzero id, which EF Core would insert as given, does not occur in the handlers.
- GET /mybooks returns the book entities; their unloaded `Category` and `Seller` navigations (null in the response) are not part of `Models.Book`.
- The order in which SQLite returns rows without an `ORDER BY` is taken to be insertion order.
