# Social-media backend: account and message rules

A model of the service and data-access layers of a small social-media HTTP
backend. Users register an account (username and password) and log in; any
caller can post a short text message for an account, read all messages, read
one, edit its text, delete it, or list the messages of one account.

The database is an immutable `Schema.Store`: the `account` and `message`
tables as maps from primary key to row, plus the counter of each identity
column. Every data-access method is a pure function over that store, and
every service method is a pure function returning its Java result together
with the store it leaves (`Schema.Step`). Java `null` is `Common.None`. The
`AccountException` that registration throws is the `Invalid` outcome of
`AccountService.Registration`.

Modules follow the source:

- `Validation` holds Java's `String.isBlank` (`IndexOfNonWhitespace` and
  `Character.isWhitespace`), the 255-character text bound and the 4-character
  password minimum.
- `Keys` holds generated keys (`FreshFrom`, the least unused key at or above
  the counter), the least key and ascending key order.
- `Schema` holds the rows, the store and the store invariant `Valid`. Under
  `Valid`, rows carry their own key, both counters are past every key,
  usernames are unique, accounts passed registration's checks, texts are
  non-blank and at most 255 characters, and every message's poster exists.
- `AccountDao` and `MessageDao` are the two data-access objects.
- `AccountService` and `MessageService` are the two services.
- `StoreInvariants` proves that the store invariant holds of a fresh database
  and is kept by every request, alone or in sequence.

Reads such as `Login`, `GetMessageById`, `GetAllMessages` and
`GetMessagesByAccountId` return no store, so they cannot modify it.

Where the source leaves a choice to the database, the model fixes one:

- A username lookup returns the matching row with the lowest key. Under
  unique usernames that is the only match.
- List queries return rows in ascending key order. The contracts promise
  membership and one entry per row, and the source promises no order.
- Generated keys come from the identity counter. Every store the services
  produce keeps the counter past every key in use, so the key is the counter
  itself. For a store whose counter has fallen behind, `Keys.FreshFrom` skips
  to the least unused key at or above the counter; that is the model's own
  choice, not the behaviour of any particular database.

## Model

| member | source | states |
|---|---|---|
| AccountService.RegisterAccount | src/main/java/Service/AccountService.java:26-40 | a missing or blank username gives the username error, even with a bad password; otherwise a missing or short password gives the password error; otherwise a taken username gives null. Each of these leaves the store unchanged. Otherwise exactly one account is added under a fresh key at or above the account counter, which moves past it, with the candidate's username and password, and it is returned; the message table and its counter are untouched |
| AccountService.Login | src/main/java/Service/AccountService.java:43-51 | a returned account is stored, and its username and password equal the request's; with unique usernames, an account is returned exactly when some stored account has the request's username and exactly its password |
| AccountService.RegisterThenLogin | src/main/java/Service/AccountService.java:35-50 | after a successful registration, logging in with the same credentials returns the new account |
| AccountService.RegisterTwice | src/main/java/Service/AccountService.java:35-37 | once a username is registered, a second valid registration of it reports the name taken and adds no account |
| AccountDao.CreateAccount | src/main/java/DAO/AccountDAO.java:18-34 | the candidate is stored verbatim under a key no row used before, and returned with that key set; the message table is untouched; when the counter is ahead of every key, the key is the counter |
| AccountDao.GetAccountByUsername | src/main/java/DAO/AccountDAO.java:37-50 | a row is found exactly when the username is not null and some stored account has it; the row found has that username and is stored; with unique usernames it is the only such account |
| AccountDao.GetAccountById | src/main/java/DAO/AccountDAO.java:53-67 | the account stored under the id, or null when there is none; when rows carry their keys, its id is the one asked for |
| AccountDao.CreateThenLookup | src/main/java/DAO/AccountDAO.java:18-67 | an account just inserted under a new username is found by its new id and by its username |
| AccountDao.CreateKeepsUsernamesUnique | src/main/java/Service/AccountService.java:35-39 | inserting after a lookup by that username found nothing keeps usernames unique |
| MessageService.CreateMessage | src/main/java/Service/MessageService.java:27-37 | a message is created exactly when the text is present, non-blank and at most 255 characters and the poster's account exists; otherwise null with the store unchanged. On success exactly one message is added under a fresh key at or above the message counter, which moves past it, carrying the request's poster, text and time; the account table and its counter are untouched |
| MessageService.UpdateMessageText | src/main/java/Service/MessageService.java:55-65 | the update happens exactly when the new text passes the same check and a message has the id; otherwise null with the store unchanged. On success only that message's text changes (the account table and both counters are kept), and the returned record equals the stored one |
| MessageService.GetAllMessages | src/main/java/Service/MessageService.java:40-42 | every stored message appears, each once, and nothing else |
| MessageService.GetMessageById | src/main/java/Service/MessageService.java:45-47 | the message stored under the id, or null |
| MessageService.DeleteMessageById | src/main/java/Service/MessageService.java:50-52 | the message stored under the id before the call, or null; afterwards exactly that key is gone, every other message is as it was, and the accounts and both counters are kept |
| MessageService.GetMessagesByAccountId | src/main/java/Service/MessageService.java:68-70 | exactly the stored messages whose poster is the given account, each listed once |
| MessageService.RejectedUpdateKeepsText | src/main/java/Service/MessageService.java:57-59 | an update with missing, blank or too-long text returns null, and the message still reads back with its old text |
| MessageService.UpdateKeepsIdentity | src/main/java/Service/MessageService.java:60-64 | a successful update keeps the message's id, poster and time, carries the new text, and is what a later read returns |
| MessageDao.CreateMessage | src/main/java/DAO/MessageDAO.java:22-41 | the message is stored under a key no row used before and returned with that key and every other field as given; accounts are untouched |
| MessageDao.DeleteMessageById | src/main/java/DAO/MessageDAO.java:44-58 | returns the row as it was before the delete exactly when the id was present; removes exactly that key and leaves every other row, and the accounts, as they were; an absent id leaves the store unchanged |
| MessageDao.GetAllMessages | src/main/java/DAO/MessageDAO.java:61-74 | every stored message, each once, and nothing else |
| MessageDao.GetMessageById | src/main/java/DAO/MessageDAO.java:77-93 | the row under the id, or null when there is none; when rows carry their keys, its id is the one asked for |
| MessageDao.UpdateMessageText | src/main/java/DAO/MessageDAO.java:96-111 | null with the store unchanged when no row has the id; otherwise the row read back after the update, which is the old row with only its text replaced |
| MessageDao.GetMessagesByAccountId | src/main/java/DAO/MessageDAO.java:114-131 | exactly the stored messages posted by the account, as many entries as it has rows; the empty list exactly when it posted none |
| MessageDao.CreateThenRead | src/main/java/DAO/MessageDAO.java:22-131 | a message just inserted is read back by its id, appears in the full listing and appears in its poster's listing |
| MessageDao.DeleteTwice | src/main/java/DAO/MessageDAO.java:44-58 | after a delete the id reads as null, and deleting it again returns null and changes nothing |
| MessageDao.UpdateThenRead | src/main/java/DAO/MessageDAO.java:96-111 | a returned updated record carries the new text and is what a later read of that id finds |
| MessageDao.ListingsAgree | src/main/java/DAO/MessageDAO.java:61-131 | an account's listing is exactly the full listing restricted to that poster, and every listed message appears under its poster |
| Validation.IndexOfNonWhitespace | src/main/java/Service/MessageService.java:29 | the position of the first non-whitespace character (or the length), which decides `isBlank` |
| Validation.BlankIffAllWhitespace | src/main/java/Service/AccountService.java:28 | a string is blank exactly when all of its characters are whitespace; the empty string is blank |
| Keys.FreshFrom | src/main/java/DAO/MessageDAO.java:25-37 | a generated key is unused, at least the counter, and the least such key |
| StoreInvariants.RegisterPreservesValid | src/main/java/Service/AccountService.java:28-39 | registration keeps the store invariant: unique usernames, well-formed accounts, fresh keys |
| StoreInvariants.CreatePreservesValid | src/main/java/Service/MessageService.java:29-36 | message creation keeps texts non-blank and within 255 characters, and every poster existing |
| StoreInvariants.UpdatePreservesValid | src/main/java/Service/MessageService.java:57-64 | text update keeps texts non-blank and within 255 characters |
| StoreInvariants.DeletePreservesValid | src/main/java/Service/MessageService.java:50-52 | message deletion keeps the store invariant |
| StoreInvariants.ServePreservesValid | src/main/java/Controller/SocialMediaController.java:182-193 | serving any one of the eight routes' service calls keeps the store invariant |
| StoreInvariants.RunPreservesValid | src/main/java/Controller/SocialMediaController.java:182-193 | serving any sequence of requests keeps the store invariant |
| StoreInvariants.ReachableStoresAreValid | src/main/java/Service/AccountService.java:35-39 | from a fresh database, after any requests, usernames are unique, every text is non-blank and at most 255 characters, and every message's poster exists |
| StoreInvariants.AccountsOnlyGrow | src/main/java/DAO/AccountDAO.java:16-67 | no request removes or changes an account, so a message's poster, which existed at creation, exists ever after |

## Left out

- `SQLException`: every data-access call can fail with it, and the services and routes pass it on as HTTP 500. The model has no failing store.
- The HTTP layer, meaning routing, JSON binding, path-parameter parsing and status codes, is not part of this model. `StoreInvariants.Request` only names which service call each route makes.
- Connection handling and the SQL text are replaced by map operations.
- Concurrency: the check-then-insert race on duplicate usernames needs concurrent requests, and the model is sequential.
- Integer widths are not modelled. Java `int` keys and posters and the `long` time are unbounded integers, because generated keys never approach the limit in the model.
- Text length: Java's `length()` counts UTF-16 code units, but the model counts Unicode scalar values. A character outside the Basic Multilingual Plane counts 2 toward the 255 limit in Java and 1 here. The same difference applies to the 4-character password minimum, in the other direction: Java accepts a password of two such characters (its `length()` is 4), but `AccountService.RegisterAccount` rejects it as too short.
- `AccountDao.CreateAccount` and `MessageDao.CreateMessage` / `MessageDao.UpdateMessageText` take non-null strings. Their only callers pass validated, non-null values.
- A missing generated key (`rs.next()` false after an insert) cannot happen with an identity column, so it is not modelled.
- AccountDao.GetAccountByUsername: the source takes whichever matching row the database returns first. The model takes the lowest key, and its contract only pins the row down when usernames are unique.
