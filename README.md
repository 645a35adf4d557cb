# One-time passcode service: a Dafny model

This project models the passcode lifecycle of a small web service that
issues four-digit one-time passcodes (OTPs) for mobile numbers and later
checks them. The service keeps a single `users` table with rows
`(mobile_number, otp)`:

- **register** draws a fresh code of four decimal digits. It looks the number
  up, then either UPDATEs that number's row or INSERTs a new row. It answers
  with a message that carries the code.
- **verify** looks the number up and accepts only when a row exists and its
  code equals the presented string exactly. Otherwise it rejects with the
  detail "Invalid OTP". It never writes to the table.

Files:

- `otp_code.dfy` (module `OtpCode`): code generation. The random source is a
  parameter, the four indices into `"0123456789"` it drew. The module proves
  that every generated code has the passcode shape, and that draws and codes
  correspond one to one. So uniformly random draws give a uniformly random
  code.
- `users_table.dfy` (module `UsersTable`): the table as a sequence of rows,
  and the SELECT/fetchone, UPDATE and INSERT statements as functions on it.
  `Codes(rows)` is the number-to-code mapping a SELECT observes. The table's
  schema (a primary key, say) is not part of this model, so INSERT just
  appends a row. "At most one row per number" is then an invariant that the
  service's check-then-write logic keeps (`DistinctNumbers`); the database
  does not enforce it here.
- `otp_service.dfy` (module `OtpService`): class `Service`, whose `users`
  field is the table. `Register` is a method that writes out both the UPDATE
  branch and the INSERT branch. `Verify` is a function of the table: a
  lookup and an equality test.

The service runs a separate SELECT and then an UPDATE or an INSERT, and
never shows the table's schema. The model follows the code: each call is one
atomic step, and that each number has at most one row is proved from the
branch logic rather than assumed of the database.

## Model

| member | source | states |
|---|---|---|
| `OtpCode.Choices` | main.py:26 | choosing `k` characters from the alphabet and joining them gives a string of length `k` whose i-th character is the alphabet entry at the i-th draw |
| `OtpCode.GenerateOtp` | main.py:25-26 | every generated code is exactly 4 characters, each in `'0'..'9'` |
| `OtpCode.GenerateOnto` | main.py:25-26 | every 4-digit string is produced by some draw of the random source |
| `OtpCode.GenerateInjective` | main.py:25-26 | two different draws never produce the same code, so each code comes from exactly one draw |
| `UsersTable.CodesKeys` | main.py:39-40 | a number is found by the lookup exactly when some row carries that number |
| `UsersTable.SelectFindsCode` | main.py:66-67 | `SELECT otp ... WHERE mobile_number=?` followed by fetchone returns a value exactly when the number has a code, and that value is the number's code |
| `UsersTable.Select` | main.py:39-40 | `SELECT otp FROM users WHERE mobile_number=?` followed by fetchone returns a code only from a row for that number, and returns nothing only when no row carries the number; `SelectFindsCode` ties it to the number-to-code mapping |
| `UsersTable.Insert` | main.py:48 | the INSERT adds exactly the row `(mobile_number, otp)` and keeps every other row; `InsertAddsCode` gives its effect on the mapping |
| `UsersTable.Update` | main.py:44 | the UPDATE sets the code of every row with the given number and leaves every other row, and the row count, unchanged |
| `UsersTable.UpdateAbsent` | main.py:44 | an UPDATE for a number without a row changes nothing |
| `UsersTable.UpdateReplacesCode` | main.py:42-45 | on a number that has a row, the UPDATE branch turns the mapping into `old[mobile := otp]` |
| `UsersTable.UpdateKeepsDistinct` | main.py:44 | the UPDATE branch adds no row and keeps numbers distinct |
| `UsersTable.InsertAddsCode` | main.py:46-49 | on a number without a row, the INSERT branch also turns the mapping into `old[mobile := otp]`, the same state as the UPDATE branch |
| `UsersTable.InsertKeepsDistinct` | main.py:46-49 | inserting only after the lookup found no row keeps numbers distinct |
| `UsersTable.CodesAreRows` | main.py:66-69 | while numbers are distinct, the number maps to a code exactly when the table holds that row, so no second row is hidden behind the first |
| `UsersTable.OneRowPerNumber` | main.py:42-49 | while numbers are distinct, the table has exactly one row per registered number |
| `OtpService.IssuedMessage` | main.py:51 | the register message carries the issued code right after `"OTP "` and ends with the number |
| `OtpService.Service.Verify` | main.py:60-72 | accepts if and only if the number has a code on record and it equals the presented string exactly; otherwise rejects with detail "Invalid OTP"; for a number never registered it always rejects; as a function of the table it cannot change it, so repeating it gives the same answer |
| `OtpService.Service.Register` | main.py:30-51 | keeps the invariant (distinct numbers, every stored code 4 digits); the mapping becomes `old[mobile := code]` on both branches; the row count grows by one only for a new number; afterwards `Verify(mobile, p)` accepts exactly `p == code`, so an earlier code for the number is rejected unless it is equal; every other number's verification is unchanged; the message reports the stored code |

## Left out

- OtpService.Service.Register: its precondition `Valid()` (distinct numbers, every stored code four digits) is an assumption about the table the service starts from. The code runs against whatever `users` table the database file already holds and never creates it. `Valid()` holds when the table starts empty (the constructor), only this service writes to it, each call is atomic, and both columns store and compare text exactly. If the `otp` column had a numeric type, the database would store "0193" as 193, the comparison at main.py:69 would compare a number with a string, and no code would ever be accepted. Column types are not modelled.
- HTTP routing, decorators and the request models (main.py:3-4, 12, 21-22, 29, 54-56, 59): transport plumbing with no logic of its own.
- The database connection, `execute`/`fetchone`/`commit`, and the unused `Database` instance and its URL (main.py:5, 10, 15, 18, 37, 65): I/O against a library outside this model. The table is an in-memory sequence of rows, and storage failures are not modelled.
- The random source (`random.choices`): its draws are a parameter of `OtpCode.GenerateOtp` and `OtpService.Service.Register`. Randomness and its quality are not modelled beyond the one-to-one correspondence between draws and codes.
- Concurrency: the asynchronous handlers, and the race between the SELECT and the later UPDATE or INSERT when the same number registers twice at once. Each call is modelled as one atomic step. Under that race the real service could insert a second row for a number, which the invariant here rules out.
- The HTTP status codes and the exception mechanism (main.py:72): a rejection is the value `Rejected("Invalid OTP")`. The success message of verification (main.py:70) is not modelled; `Accepted` stands for it.
- The server entry point (main.py:75-77).
