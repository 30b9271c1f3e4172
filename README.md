# Code redemption ledger engine

A Dafny model of the core of a small payment backend (`server.js`): single-use
redemption codes backed by value, settled through an internal ledger of named
wallets. The database it works on is modelled as one in-memory object,
`Tables.Database`, with three tables:

- `wallets`: wallet name to id and balance;
- `codes`: code string to amount, owning user and status (`Unused` or `Used`);
- `transactions`: the append-only log of `debit` and `credit` rows.

Amounts are integers in minor currency units.

What is modelled:

- **Redemption** (`Redemption.Redeem`). The `/redeem` handler runs as one unit
  of work. `BEGIN` takes a `Snapshot` of the tables and every `ROLLBACK`
  restores it. The handler then:
  1. looks the code up;
  2. refuses it if it is missing or not unused;
  3. debits the `intermediate` wallet (`WalletLedger.DebitWalletWithTransaction`);
  4. credits the `platform` wallet (`WalletLedger.CreditWalletWithTransaction`);
  5. marks the code used.

  Either the whole of `Redemption.Committed` happens, or nothing does.
  Separate lemmas prove four things about a committed redemption:
  - the total of all balances is conserved;
  - every balance moves by exactly the net effect of the log rows appended
    for its wallet;
  - the invariant holds afterwards: balances non-negative, wallet ids
    distinct, code amounts positive;
  - the same code can never be redeemed again.
- **Code creation** (`CodeIssuer.CreateCode`). It validates the amount,
  generates a code with `generatePaymentCode(userId)` and inserts the code as
  unused. Only the second JavaScript declaration of `generatePaymentCode` is
  modelled (`PaymentCode.GeneratePaymentCode`), because a later function
  declaration replaces an earlier one of the same name. The `Math.random()`
  draws become three caller-supplied indices into the 32-character alphabet.
- **Input guards** (`Guards`). These cover:
  - the create-code amount check;
  - the register and PIN-setup field checks, with JavaScript truthiness and
    `.length` semantics on request-body values. A string's `.length` counts
    UTF-16 code units, so a character above U+FFFF counts twice;
  - `requireAuth`'s `Bearer ` prefix check and its `split(' ')[1]` token
    extraction. The JWT signature check becomes a function parameter.

Three features of the code shape the model:

- Redemption moves value with two separate helper calls, each of which locks
  one wallet. `Tables.Transfer` is the composition of the two.
- A helper failure is answered with a generic 'redeem failed'. The model
  keeps the helper's error as the `cause` of `RedeemFailed`.
- Wallets start from provisioned balances, not from an empty log. So "balance
  equals the sum of the log" is proved in its preserved form: each redemption
  changes each balance by exactly the net effect of the rows it appends.

## Model

| member | source | states |
|---|---|---|
| `Tables.Database.Restore` | server.js:242-243 | ROLLBACK: after it, all three tables are exactly the snapshot BEGIN took |
| `Tables.Database.Current` | server.js:194 | BEGIN: the snapshot holds exactly the current wallets, codes and log |
| `Tables.Adjust` | server.js:69-72 | a balance update changes only the named wallet's balance, by exactly delta, keeping its id and every other row |
| `Tables.TotalAdjust` | server.js:106-108 | changing one wallet's balance by delta changes the sum of all balances by exactly delta |
| `Tables.NetAppend` | server.js:112-116 | appending rows to the transaction log adds their net effect on a wallet and leaves the effect of earlier rows unchanged |
| `Tables.Transfer` | server.js:213-224 | debit then credit: the source wallet loses the amount, the destination gains it, ids are kept and no other wallet changes |
| `Tables.TransferConservesTotal` | server.js:213-224 | a debit of an amount followed by a credit of the same amount to another wallet leaves the total of all balances unchanged |
| `Tables.TransferReconciles` | server.js:75-79 | with distinct wallet ids, each balance moves by exactly the net of the appended debit and credit rows for its id: -amount, +amount, or 0 |
| `WalletLedger.DebitWalletWithTransaction` | server.js:83-117 | fails with wallet-not-found when the name is missing and with insufficient-balance when balance < amount, changing nothing; otherwise it lowers that balance by amount and appends one debit row with the wallet's id, the amount and the code |
| `WalletLedger.CreditWalletWithTransaction` | server.js:50-80 | fails exactly when the wallet is missing, changing nothing; otherwise it raises that balance by amount and appends one credit row with the wallet's id, the amount and the code |
| `Redemption.Committed` | server.js:212-235 | a committed redemption changes only these things: intermediate down by the code's amount, platform up by it, the code's status set to used, two rows appended (a debit for intermediate, then a credit for platform, both tagged with the code); every other wallet and code is kept |
| `Redemption.Redeem` | server.js:188-249 | the empty code is 'code required'; a missing code is 'code not found'; a code that is not unused is 'code already used'; a missing wallet or a short intermediate balance is 'redeem failed' with that cause; any failure leaves every table unchanged; success happens exactly when the redemption can commit, returns the code's amount and leaves the tables of `Committed`; the total balance is always conserved, no code disappears or goes back from used to unused, and the invariant is always kept |
| `Redemption.CommittedConservesTotal` | server.js:212-224 | a committed redemption leaves the sum of all wallet balances unchanged |
| `Redemption.CommittedReconciles` | server.js:212-224 | after a committed redemption, every wallet's balance change equals the net effect of the new log rows for its id |
| `Redemption.CommittedKeepsConsistent` | server.js:101-108 | balances stay non-negative, wallet ids stay distinct and code amounts stay positive across a committed redemption |
| `Redemption.CommittedAdvancesCodes` | server.js:229-233 | marking the code used removes no code and turns no used code back to unused |
| `Redemption.NoDoubleRedemption` | server.js:206-233 | after a committed redemption the code is used and a second redemption of it cannot commit |
| `Guards.Truthy` | server.js:192 | a body value is falsy exactly when it is undefined, null, false, 0 or the empty string; arrays and objects are always truthy |
| `Guards.Utf16Length` | server.js:255 | a string's JavaScript length lies between its character count and twice that, and equals the character count when no character is above U+FFFF |
| `Guards.Length` | server.js:255 | `.length` is defined exactly for strings and arrays: the UTF-16 length of a string, the element count of an array |
| `Guards.ValidAmount` | server.js:152-154 | an amount is accepted exactly when it is a number greater than zero; the accepted value is that number, so it is always positive |
| `Guards.RegisterInputOk` | server.js:255-257 | accepted input always has a truthy email and password and no password length below 6; for string fields, accepted exactly when the email is non-empty and the password is at least 6 UTF-16 code units long; a truthy number passes as the password |
| `Guards.PinInputOk` | server.js:332-334 | accepted exactly when the email is truthy and the PIN's `.length` is 4, so a four-element array is accepted and a PIN that is neither string nor array is always refused; for string fields, accepted exactly when the email is non-empty and the PIN is exactly 4 UTF-16 code units long |
| `Guards.TwoAstralCharsMakeAPin` | server.js:332 | a PIN of two characters above U+FFFF has length 4 in JavaScript and is accepted |
| `Guards.Split` | server.js:33 | `split`: at least one piece, no piece contains the separator, the first piece is a prefix of the input ending at a separator or at the end, and joining the pieces with the separator gives the input back |
| `Guards.SplitAfter` | server.js:33 | splitting a separator-free word, then the separator, then a rest yields that word followed by the pieces of the rest |
| `Guards.BearerToken` | server.js:29-33 | a token exists exactly when the header is present and starts with "Bearer "; the token is the text after that prefix up to the next space or the end, and contains no space |
| `Guards.RequireAuth` | server.js:26-47 | with no Bearer header, missing-token; otherwise authorized exactly when the signature check accepts the extracted token, and the principal is the one the check returns; a token the check refuses is invalid-token |
| `PaymentCode.AlphabetDistinct` | server.js:129 | the alphabet has 32 pairwise distinct characters and contains none of I, O, 0, 1 |
| `PaymentCode.Digits` | server.js:136 | the decimal form of a natural number ends in the digit of n mod 10, and just before it the tens digit when n >= 10; it is one character long below ten |
| `PaymentCode.DecimalString` | server.js:136 | `String(n)` for an integer id below 1e21: the decimal digits of a non-negative integer, a minus sign before the digits of -n for a negative one; the last character is always the units digit of the magnitude |
| `PaymentCode.SliceFrom` | server.js:136 | `slice(start)` returns a suffix of the string; a negative start keeps the last -start characters, or all of them when there are fewer |
| `PaymentCode.PadStart` | server.js:136 | `padStart` leaves a long-enough string alone; otherwise it pads on the left to the width, and the original string is the tail |
| `PaymentCode.UserPart` | server.js:136 | the user part is always exactly two characters |
| `PaymentCode.UserPartDigits` | server.js:136 | for a non-negative user id the user part is its tens digit and units digit, with a leading '0' below ten |
| `PaymentCode.CodeOf` | server.js:128-139 | the code has 6 characters: 'U', then the user part of the id, then the alphabet characters at the three drawn indices, in order |
| `PaymentCode.DrawDeterminesIndex` | server.js:129-133 | two draws give the same character exactly when they drew the same index |
| `PaymentCode.DrawsDetermineIndices` | server.js:132-134 | the three drawn characters determine the three drawn indices |
| `PaymentCode.EqualCodesSameDraws` | server.js:128-139 | equal generated codes come from equal user parts and identical draws |
| `PaymentCode.CodeOfDeterminesDraws` | server.js:128-139 | two generated codes are equal exactly when the user parts are equal and the three draws were the same |
| `PaymentCode.GeneratePaymentCode` | server.js:128-139 | the loop that appends three drawn characters, followed by the template, returns exactly `CodeOf` of the id and the draws |
| `CodeIssuer.CreateCode` | server.js:147-181 | succeeds exactly when the amount is a positive number and the generated code `CodeOf` is not yet in `codes`; a non-positive or non-numeric amount is 'valid amount required', a code already present is a collision, and either way nothing changes. On success it returns the generated code with that amount and status unused, and inserts exactly that row for that user; wallets and log are never touched, no code disappears or becomes unused again, and the invariant is kept |

## Left out

- Connection pool (`db.js`), `client.release()`, and the `console` request logging: not logic.
- Row locks (`FOR UPDATE`), concurrent interleavings, deadlocks and lock order: the model is one sequential call in which BEGIN/ROLLBACK become all-or-nothing state updates. So "among concurrent redemptions of one code exactly one succeeds" appears here as its sequential counterpart, `Redemption.NoDoubleRedemption`.
- HTTP routing, CORS, status codes and JSON response shaping: the errors are modelled as datatype values named after the responses.
- bcrypt hashing and comparison, JWT signing: foreign library calls. JWT verification appears only as the `verify` parameter of `Guards.RequireAuth`.
- The `/login` handlers (server.js:288-325, and the unreachable duplicate at server.js:357-393), the `auth` middleware and `/protected-example` (server.js:396-416): outside the engine. Of `/register` and `/set-payment-pin`, only the input checks are modelled. Their database writes are not.
- The first, argument-less `generatePaymentCode` (server.js:119-126): every call reaches the later declaration.
- PaymentCode.DecimalString: user ids are taken to be integers below 1e21 in magnitude, the numeric ids `users.id` yields (the JWT payload's `userId` at server.js:150 is signed from `user.id` at server.js:314). JavaScript's exponent notation for larger numbers (`String(1e21)` is `"1e+21"`, whose user part is `"21"`) and non-numeric ids such as text or UUID keys are not modelled.
- `Math.random()`: replaced by three caller-supplied indices in [0, 32).
- Timestamps (`created_at` on codes and transactions): clock values, not modelled.
- JavaScript number semantics: amounts are integers. Fractional amounts and NaN are not modelled. Neither are column values returned as strings: if `pg` returns both `wallets.balance` and `codes.amount` as strings (NUMERIC or BIGINT columns), server.js:101 compares them as text, so `'50' < '300'` is false and the debit goes ahead. server.js does not show the schema; the model compares integers.
- A non-string `code` in the redeem body, which `pg` would turn into text: the model takes the code as a string, with the empty string as the falsy case.
- JavaScript strings that hold a lone UTF-16 surrogate: a Dafny character is a Unicode scalar value, so such strings cannot be written down. Every other string's `.length` is modelled exactly by `Guards.Utf16Length`.
- A request-body object that carries its own `length` property: `.length` is modelled for strings and arrays only.
- Other code statuses: server.js only writes 'unused' and 'used' and tests `status !== 'unused'` (server.js:207). Any other value a row might hold is not modelled.
- Database failures other than a duplicate code (the generic 500 answers, a failing ROLLBACK): not modelled. A duplicate generated code is modelled as `CodeCollision` with no change, which is what a unique constraint on `codes.code` produces (error 23505 at server.js:174-176).
- Retrying after a code collision: the server does not retry either.
