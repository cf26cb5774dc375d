# Clean-architecture product and credential service, modelled in Dafny

This project models the behavioural core of a small ASP.NET Core CRUD
service. The service keeps Products and Users in a relational store. It
exposes product commands and queries through a mediator and a credential
service for registration, login and token claims. A global middleware turns
exceptions into JSON error envelopes.

Modules, one per source file or layer:

| module | file | models |
|---|---|---|
| `Common` | common.dfy | `Option`, the exceptions the core raises, `Outcome` (returned or threw), time as ticks |
| `Numbers` | numbers.dfy | `Int32.ToString()` and `int.Parse` as the credential service uses them for user ids |
| `Entities` | entities.dfy | `ApplicationUser`, `Product`, `ProductDto` |
| `Persistence` | persistence.dfy | the store: both tables keyed by Id, the Users identity counter, the `ApplicationUserConfiguration` constraints |
| `Identity` | identity.dfy | `IdentityService` |
| `ProductCommands` | product_commands.dfy | the Update and Delete command handlers |
| `ProductValidation` | product_validation.dfy | `UpdateProductCommandValidator` |
| `ProductQueries` | product_queries.dfy | the GetById and GetProducts query handlers |
| `ExceptionHandling` | exception_middleware.dfy | `ExceptionHandlingMiddleware` and its envelopes |
| `ActionResults` | action_results.dfy | the action results the controllers build, with their status codes |
| `AuthController` | auth_controller.dfy | `AuthController` |
| `ProductsController` | products_controller.dfy | `ProductsController` |

The operations that write the store are modelled twice:

- A pure step function on table values: `Identity.UserCreation`,
  `Identity.UserDeletion`, `ProductCommands.ProductUpdate` and
  `ProductCommands.ProductDeletion`. Each returns the answer and the new
  table, and its contract and lemmas carry the properties.
- A class method that changes an `ApplicationDbContext` step by step, as the
  source does. Each method is proved to produce exactly what its step
  function produces, and to keep the store's invariant `Valid()`.

Queries, controllers and the middleware's decision are pure functions.

The store is modelled as the relational database the configuration
describes. On save it refuses a Users row that breaks the configuration:
a Username over 50 characters, an Email over 100, a repeated Username, a
repeated Email, or an Id past the `int` range. A refused save throws
`DbUpdateException` and leaves the table as it was.

`CreateUserAsync` checks only the Username. Every registered user keeps the
default Email `""`. So once one user is registered, every registration of a
different username passes the guard and is then refused by the unique Email
index (`Identity.SecondRegistrationRefused`).

Where the code does something other than what its own declarations
advertise, the model follows what the code does:

- A missing product in `GetById`. The action declares a 404 response
  (`[ProducesResponseType(StatusCodes.Status404NotFound)]`,
  user-workspace/src/WebApi/Controllers/ProductsController.cs:34), but:
  - The controller does not catch `NotFoundException`.
  - The middleware maps only `ValidationException` and `ApplicationException` to 400; everything else gets 500.
  - So the client gets 400 or 500, depending on the base class of `NotFoundException`, which is not part of this model (`ProductsController.MissingProductStatus`).
- The error envelope. The code serializes with default options, so keys are PascalCase (`Status`, `Message`). Although a `ValidationErrorResponse` is built with `Errors`, the envelope written by `ExceptionHandling.Invoke` never carries them (see Findings). `ExceptionHandling.InvokeCorrected` is the same pipeline with the corrected serialization.
- Validation and mutation. The Update handler performs no validation itself, and the mediator pipeline that would run the validator is not part of this model.
- The deletion failure message is `"User not found"`, as the code writes it.

## Model

| member | source | states |
|---|---|---|
| Common.AddMinutes | user-workspace/src/Infrastructure/Authentication/IdentityService.cs:74 | adding a non-negative number of minutes never moves a time backwards; adding a positive number moves it strictly forwards |
| Numbers.IntToString | user-workspace/src/Infrastructure/Authentication/IdentityService.cs:43 | the text of an id is non-empty and ends in a digit; it starts with a digit exactly when the id is non-negative, and with '-' exactly when it is negative |
| Numbers.ParseInt32 | user-workspace/src/Infrastructure/Authentication/IdentityService.cs:89 | `int.Parse`: leading and trailing white space is ignored; it throws FormatException exactly when the trimmed text is not an optional '-' or '+' followed by at least one digit; otherwise it returns the value that text denotes when that value is in the int range, and throws OverflowException when it is not |
| Numbers.ParseSigned | user-workspace/src/Infrastructure/Authentication/IdentityService.cs:89 | the sign step of `int.Parse` on trimmed text: FormatException exactly when the text is not an optional '-' or '+' followed by at least one digit; otherwise the value that text denotes when it is in the int range, and OverflowException when it is not |
| Numbers.ParseMagnitude | user-workspace/src/Infrastructure/Authentication/IdentityService.cs:89 | the digits step of `int.Parse`: a returned value is in the int range and is the digits' decimal value with the sign applied; FormatException exactly when the digits are empty or contain a non-digit; OverflowException exactly when well-formed digits give a signed value outside the int range |
| Numbers.NumeralValueOfNumeral | user-workspace/src/Infrastructure/Authentication/IdentityService.cs:43 | reading back the decimal numeral of a natural number gives that number |
| Numbers.TrimStart | user-workspace/src/Infrastructure/Authentication/IdentityService.cs:89 | the leading white space `int.Parse` skips: the result is a suffix of the text, everything removed is white space, and the result does not start with white space |
| Numbers.TrimEnd | user-workspace/src/Infrastructure/Authentication/IdentityService.cs:89 | the trailing white space `int.Parse` skips: the result is a prefix of the text, everything removed is white space, and the result does not end with white space |
| Numbers.ParseIntToString | user-workspace/src/Infrastructure/Authentication/IdentityService.cs:87-99 | every int id survives `ToString` and then `int.Parse`, so the id text registration returns is accepted by deletion |
| Numbers.IntToStringDenotes | user-workspace/src/Infrastructure/Authentication/IdentityService.cs:43 | the text of an int is an optional '-' and digits, denoting exactly that int |
| Persistence.SatisfiesUserConfiguration | user-workspace/src/Infrastructure/Persistence/Configurations/ApplicationUserConfiguration.cs:13-32 | the Users constraints: an empty table meets them, and in a table that meets them a Username, and likewise an Email, identifies at most one row |
| Persistence.InsertKeepsConfiguration | user-workspace/src/Infrastructure/Persistence/Configurations/ApplicationUserConfiguration.cs:13-32 | adding a row to a table that meets the Users constraints keeps them exactly when the row fits: lengths within 50/100, and no other row with its Username or Email |
| Persistence.RemoveKeepsConfiguration | user-workspace/src/Infrastructure/Persistence/Configurations/ApplicationUserConfiguration.cs:13-32 | removing a row never breaks the Users constraints |
| Entities.NewUser | user-workspace/src/Infrastructure/Authentication/IdentityService.cs:33-38 | a new user carries the given Id, Username, hash and CreatedAt; Email is "", Roles empty and LastLogin unset |
| Entities.ToDto | user-workspace/src/Application/Products/Queries/GetProductById/GetProductByIdQuery.cs:33 | every field of the product is copied into the DTO |
| Entities.ToDtoInjective | user-workspace/src/Application/Products/Queries/GetProductById/GetProductByIdQuery.cs:33 | the mapping loses nothing: two products give the same DTO exactly when they are equal |
| Persistence.ApplicationDbContext.constructor | user-workspace/src/Application/Common/Interfaces/IApplicationDbContext.cs:8-9 | a store with the given products and no users starts valid, with the Users identity counter at 1 |
| Identity.HashPassword | user-workspace/src/Infrastructure/Authentication/IdentityService.cs:102-107 | the stored hash is the Base64 text of a 32-byte digest: 44 characters ending in the padding '=' |
| Identity.VerifyPassword | user-workspace/src/Infrastructure/Authentication/IdentityService.cs:109-112 | a password verifies exactly when its hash equals the stored hash, so only a 44-character stored hash can accept any password |
| Identity.VerifyPasswordAcceptsDigest | user-workspace/src/Infrastructure/Authentication/IdentityService.cs:102-112 | a stored hash accepts its own password, and accepts another password exactly when that password has the same digest |
| Identity.UsernameExists | user-workspace/src/Infrastructure/Authentication/IdentityService.cs:28 | a username is taken exactly when it is one of the table's usernames; in an empty table none is |
| Identity.FindByUsername | user-workspace/src/Infrastructure/Authentication/IdentityService.cs:48 | `FirstOrDefault` by Username: a found row has that Username and the smallest such Id; nothing is found exactly when no row has the Username |
| Identity.FindByUsernameUnique | user-workspace/src/Infrastructure/Persistence/Configurations/ApplicationUserConfiguration.cs:28-29 | under the unique Username index, the lookup finds exactly the row that has the Username |
| Identity.ValidateUser | user-workspace/src/Infrastructure/Authentication/IdentityService.cs:46-55 | true only if some row has the Username and a stored hash equal to the password's hash; false for an unknown username |
| Identity.ValidateUserUnique | user-workspace/src/Infrastructure/Authentication/IdentityService.cs:46-55 | under the unique Username index: valid if and only if the user exists and the password hashes to the stored hash |
| Identity.GenerateJwtToken | user-workspace/src/Infrastructure/Authentication/IdentityService.cs:57-82 | throws ApplicationException("User not found") exactly for an unknown username; otherwise the claims are sub = the user's Id as text, unique_name = the username and jti; issuer and audience are the configured ones; expiry is ExpiryMinutes after now |
| Identity.UserCreation | user-workspace/src/Infrastructure/Authentication/IdentityService.cs:26-44 | answers (false, "") exactly when the username is taken, and then writes nothing. It succeeds exactly when the username is free, the Id fits an int and the new row meets the Users constraints; it throws DbUpdateException exactly when the username is free but the save is refused, and then writes nothing. On success it adds exactly one row under the next Id, with that Username, the password's hash, CreatedAt = now and defaults elsewhere; it returns (true, Id as text), leaves every other row unchanged and advances the counter. The Users constraints and the Id keying are kept. |
| Identity.RemoveUserRow | user-workspace/src/Infrastructure/Authentication/IdentityService.cs:89-97 | the row is found exactly when the id is a key; afterwards the keys are the old keys without the id, a found row shrinks the table by one, a missing one changes nothing, the other rows are unchanged and the Users constraints are kept |
| Identity.UserDeletion | user-workspace/src/Infrastructure/Authentication/IdentityService.cs:87-100 | `int.Parse` failures propagate with no write. A parsed id with no row gives (Failure(["User not found"]), "") with no write. Otherwise the result is (Success, the given text) and the table is the one RemoveUserRow leaves. The Users constraints are kept. |
| Identity.FirstRegistrationSucceeds | user-workspace/src/Infrastructure/Authentication/IdentityService.cs:26-44 | on an empty store with the counter in the int range, registering a name of at most 50 characters succeeds and the table then holds exactly the new user |
| Identity.FoundIsNewRow | user-workspace/src/Infrastructure/Authentication/IdentityService.cs:26-55 | after a successful registration, looking the name up finds the new row, in any keyed table |
| Identity.RegisterThenValidate | user-workspace/src/Infrastructure/Authentication/IdentityService.cs:26-55 | after a successful registration, validating the same credentials succeeds, in any keyed table |
| Identity.RegisterThenDelete | user-workspace/src/Infrastructure/Authentication/IdentityService.cs:87-100 | deleting by the id text registration returned succeeds and restores the table exactly as it was before registering |
| Identity.RegisterTakenName | user-workspace/src/Infrastructure/Authentication/IdentityService.cs:28-31 | registering a username a second time answers (false, "") and writes nothing, whatever the password |
| Identity.EmptyEmailBlocksRegistration | user-workspace/src/Infrastructure/Persistence/Configurations/ApplicationUserConfiguration.cs:31-32 | once a row has the empty Email, registering a new username passes the guard and then the save throws DbUpdateException |
| Identity.SecondRegistrationRefused | user-workspace/src/Infrastructure/Authentication/IdentityService.cs:33-41 | after one successful registration, registering any other new username throws DbUpdateException, because both rows would have Email "" |
| Identity.CreationLeavesLastLogin | user-workspace/src/Infrastructure/Authentication/IdentityService.cs:26-44 | registration does not write LastLogin: the new row has none and every other row keeps its own |
| Identity.DeletionLeavesLastLogin | user-workspace/src/Infrastructure/Authentication/IdentityService.cs:87-100 | deletion does not write LastLogin: every remaining row was there before and keeps its own |
| Identity.IdentityService.constructor | user-workspace/src/Infrastructure/Authentication/IdentityService.cs:20-24 | the service keeps the store and the password hasher it is given |
| Identity.IdentityService.CreateUser | user-workspace/src/Infrastructure/Authentication/IdentityService.cs:26-44 | changes the Users table and counter exactly as UserCreation says, returns its answer, keeps the store valid and leaves Products alone |
| Identity.IdentityService.DeleteUser | user-workspace/src/Infrastructure/Authentication/IdentityService.cs:87-100 | changes the Users table exactly as UserDeletion says, returns its answer, keeps the store valid and leaves Products and the counter alone |
| Identity.IdentityService.RemoveUser | user-workspace/src/Infrastructure/Authentication/IdentityService.cs:89-97 | reports whether the row was found and leaves the Users table exactly as RemoveUserRow says, keeping the store valid and leaving Products and the counter alone |
| ProductCommands.ProductUpdate | user-workspace/src/Application/Products/Commands/UpdateProduct/UpdateProductCommand.cs:24-42 | true exactly when the Id is present; if absent, no change. If present, Name, Description and Price become the command's and UpdatedAt becomes now; Id and CreatedAt are kept; every other product is unchanged; Id keying is kept |
| ProductCommands.ProductDeletion | user-workspace/src/Application/Products/Commands/DeleteProduct/DeleteProductCommand.cs:18-32 | true exactly when the Id is present; removes exactly that product, so the table shrinks by one; other products are unchanged; if absent, no change |
| ProductCommands.UpdateTwice | user-workspace/src/Application/Products/Commands/UpdateProduct/UpdateProductCommand.cs:34-37 | repeating an update gives the same answer, changes only UpdatedAt, and is a no-op at the same time |
| ProductCommands.DeleteTwice | user-workspace/src/Application/Products/Commands/DeleteProduct/DeleteProductCommand.cs:20-26 | a second delete of the same Id answers false and changes nothing |
| ProductCommands.UpdateProductCommandHandler.constructor | user-workspace/src/Application/Products/Commands/UpdateProduct/UpdateProductCommand.cs:19-22 | the handler keeps the store it is given |
| ProductCommands.UpdateProductCommandHandler.Handle | user-workspace/src/Application/Products/Commands/UpdateProduct/UpdateProductCommand.cs:24-42 | assigns the fields of the found product one by one; the result and the Products table are exactly as ProductUpdate says; Users are untouched and the store stays valid |
| ProductCommands.DeleteProductCommandHandler.constructor | user-workspace/src/Application/Products/Commands/DeleteProduct/DeleteProductCommand.cs:13-16 | the handler keeps the store it is given |
| ProductCommands.DeleteProductCommandHandler.Handle | user-workspace/src/Application/Products/Commands/DeleteProduct/DeleteProductCommand.cs:18-32 | the result and the Products table are exactly as ProductDeletion says; Users are untouched and the store stays valid |
| ProductValidation.FailureOfInjective | user-workspace/src/Application/Products/Commands/UpdateProduct/UpdateProductCommandValidator.cs:9-20 | the five rules report five different (property, message) pairs |
| ProductValidation.BrokenRules | user-workspace/src/Application/Products/Commands/UpdateProduct/UpdateProductCommandValidator.cs:9-20 | no rule is broken exactly when the command is valid; a rule is listed exactly when the command breaks it; rules are listed in declaration order, each at most once |
| ProductValidation.Validate | user-workspace/src/Application/Products/Commands/UpdateProduct/UpdateProductCommandValidator.cs:9-20 | no errors exactly when the Id is non-zero, the Name is not blank and at most 200 characters, the Description is at most 1000 characters and the Price is positive; one failure per broken rule, in rule order |
| ProductValidation.ValidateReportsEachRule | user-workspace/src/Application/Products/Commands/UpdateProduct/UpdateProductCommandValidator.cs:9-20 | each rule's failure is among the errors exactly when its field breaks it: "'Id' must not be empty.", "Name is required.", "Name must not exceed 200 characters.", "Description must not exceed 1000 characters.", "Price must be greater than 0."; no failure is repeated |
| ProductValidation.ValidationBoundaries | user-workspace/src/Application/Products/Commands/UpdateProduct/UpdateProductCommandValidator.cs:9-17 | a negative Id, a Name of exactly 200 characters and an empty Description all pass |
| ProductValidation.HandlerWritesInvalidCommand | user-workspace/src/Application/Products/Commands/UpdateProduct/UpdateProductCommand.cs:24-42 | the Update handler writes a command the validator rejects |
| ProductQueries.GetProductById | user-workspace/src/Application/Products/Queries/GetProductById/GetProductByIdQuery.cs:23-34 | throws NotFoundException("Product", id) exactly when the Id is absent; otherwise a DTO with every field of that product, whose Id is the requested one |
| ProductQueries.Projection | user-workspace/src/Application/Products/Queries/GetProducts/GetProductsQuery.cs:25-26 | the projected table has one DTO per product: every product's DTO, and nothing else |
| ProductQueries.InsertByCreatedAt | user-workspace/src/Application/Products/Queries/GetProducts/GetProductsQuery.cs:27 | inserting into a newest-first list keeps it newest first and adds exactly that element |
| ProductQueries.OrderByCreatedAtDescending | user-workspace/src/Application/Products/Queries/GetProducts/GetProductsQuery.cs:27 | the result is newest first and a permutation of the input |
| ProductQueries.GetProducts | user-workspace/src/Application/Products/Queries/GetProducts/GetProductsQuery.cs:23-29 | one DTO per product (length = table size), a permutation of the projection, newest first, every product present and nothing else; an empty table gives the empty list |
| ExceptionHandling.ToValidationErrors | user-workspace/src/WebApi/Middleware/ExceptionHandlingMiddleware.cs:48-52 | one ValidationError per failure, same order, same PropertyName and ErrorMessage |
| ExceptionHandling.ApplicationMessage | user-workspace/src/WebApi/Middleware/ExceptionHandlingMiddleware.cs:56 | the `case ApplicationException` pattern matches an ApplicationException, with its message, and a NotFoundException exactly when that class derives from ApplicationException, with the message its declaration builds; nothing else |
| ExceptionHandling.HandleException | user-workspace/src/WebApi/Middleware/ExceptionHandlingMiddleware.cs:30-68 | content type always application/json. ValidationException (tried first): 400, "ValidationError", the fixed message and the failures in order. An exception that is an ApplicationException: 400, "ApplicationError" and its message. Anything else: 500 with the generic envelope. |
| ExceptionHandling.ServerErrorsIndistinguishable | user-workspace/src/WebApi/Middleware/ExceptionHandlingMiddleware.cs:34-38 | every 500 envelope is the same, so no exception detail leaks |
| ExceptionHandling.SerializeDeclared | user-workspace/src/WebApi/Middleware/ExceptionHandlingMiddleware.cs:70 | the serialization as written: Status and Message with the envelope's values, and no Errors member, for either envelope class |
| ExceptionHandling.SerializeRuntime | user-workspace/src/WebApi/Middleware/ExceptionHandlingMiddleware.cs:75-84 | the corrected serialization: writes Status and Message, and for a plain ErrorResponse coincides with the serialization as written |
| ExceptionHandling.DeclaredSerializationDropsErrors | user-workspace/src/WebApi/Middleware/ExceptionHandlingMiddleware.cs:70 | as written, a ValidationException with a failure yields the same body as one with none, and no errors can be read from it |
| ExceptionHandling.RuntimeSerializationKeepsErrors | user-workspace/src/WebApi/Middleware/ExceptionHandlingMiddleware.cs:81-90 | with the run-time class serialized, a client reads back exactly the envelope's errors |
| ExceptionHandling.ValidationFailuresReachClient | user-workspace/src/WebApi/Middleware/ExceptionHandlingMiddleware.cs:42-54 | with the corrected serialization, the failures of a ValidationException reach the client one for one, in order |
| ExceptionHandling.Invoke | user-workspace/src/WebApi/Middleware/ExceptionHandlingMiddleware.cs:17-28 | as written: a result from the next stage passes through untouched; an exception becomes the handled status, application/json and the envelope serialized as its declared type, from which no errors can be read |
| ExceptionHandling.InvokeCorrected | user-workspace/src/WebApi/Middleware/ExceptionHandlingMiddleware.cs:17-28 | the corrected pipeline: the same pass-through, and an exception is written with the run-time serialization; it differs from Invoke only for a ValidationException |
| ExceptionHandling.CorrectedPipelineReportsFailures | user-workspace/src/WebApi/Middleware/ExceptionHandlingMiddleware.cs:42-54 | with the corrected pipeline, a ValidationException is answered 400 and the client reads back its failures one for one |
| ActionResults.StatusCode | user-workspace/src/WebApi/Controllers/ProductsController.cs:50-53 | Ok is 200, CreatedAtAction 201, NoContent 204, BadRequest 400, Unauthorized 401, NotFound 404, each code for that result only; a result is a 2xx exactly when it is Ok, NoContent or CreatedAtAction |
| AuthController.Register | user-workspace/src/WebApi/Controllers/AuthController.cs:21-31 | 400 {message: "Username already exists"} exactly when the username is taken; 200 {userId = the new Id as text} exactly when the username is free, the Id fits an int and the new row meets the Users constraints, with that user stored; it throws, always DbUpdateException and with no write, exactly when the username is free but the save is refused; Users and counter are as the service leaves them |
| AuthController.Login | user-workspace/src/WebApi/Controllers/AuthController.cs:36-47 | never throws, so "User not found" is never reached. 401 {message: "Invalid username or password"} exactly when validation fails, and then no token is requested; 200 with the token the service generates exactly when it succeeds. It returns no new table. |
| AuthController.RegisterThenLogin | user-workspace/src/WebApi/Controllers/AuthController.cs:21-47 | after a successful Register, Login with the same credentials answers 200, and the token's subject is the userId Register returned |
| ProductsController.GetProducts | user-workspace/src/WebApi/Controllers/ProductsController.cs:27-30 | 200 with the handler's list: one DTO per product, newest first |
| ProductsController.GetById | user-workspace/src/WebApi/Controllers/ProductsController.cs:35-39 | 200 with the product's DTO; for a missing Id it lets the handler's NotFoundException("Product", id) through and never answers 404 itself |
| ProductsController.Create | user-workspace/src/WebApi/Controllers/ProductsController.cs:44-48 | 201 with a location naming GetById and the new id |
| ProductsController.Update | user-workspace/src/WebApi/Controllers/ProductsController.cs:54-69 | route id ≠ command Id: 400 with no handler call and no change. Otherwise 204 exactly when the product exists and 404 exactly when it does not, with the table as the handler leaves it. |
| ProductsController.Delete | user-workspace/src/WebApi/Controllers/ProductsController.cs:74-84 | 204 exactly when the product exists, 404 exactly when it does not; the table is as the handler leaves it |
| ProductsController.DeleteThenGetById | user-workspace/src/WebApi/Controllers/ProductsController.cs:74-84 | after a successful Delete, GetById of that Id throws NotFoundException |
| ProductsController.MissingProductStatus | user-workspace/src/WebApi/Controllers/ProductsController.cs:34-39 | a missing product reaches the client through the middleware as 400 if NotFoundException derives from ApplicationException, otherwise as 500, and never as the advertised 404 |

## Left out

- Identity.ValidateUser: its own contract gives only one direction. True means a matching row with the right hash exists; an unknown username means false. The if-and-only-if is `Identity.ValidateUserUnique`, which needs the unique Username index; without the index, `FirstOrDefault` could pick a different row with the same Username.
- SHA-256 and Base64 (FIPS 180-4; section 4 of RFC 4648). The hash is a parameter `string -> Digest`, where a Digest is text of 44 characters ending in `=`, the shape of a Base64-encoded 32-byte digest. It is deterministic and not assumed injective.
- JWT construction, HMAC-SHA256 signing and compact serialisation (RFC 7519, RFC 7515). A token is a record of issuer, audience, claims and expiry, and Login's body carries that record rather than the signed string. Inbound token validation and `[Authorize]` are not modelled.
- `Guid.NewGuid()` for the jti claim and the clocks `DateTime.UtcNow` and `DateTime.Now`. These become parameters (`jti`, `now`), so the difference between local and UTC time in the token expiry is not modelled.
- EF Core itself: asynchrony, query translation, cancellation tokens and change tracking.
  - The Update handler's in-place write to a tracked entity is modelled as a new row value written back into the table, so aliasing of entity objects is not captured.
  - Identity generation is a counter that only advances on a successful save. A database may also consume values on a refused insert.
- Database collation. Username lookups and the unique indexes compare strings exactly. A case-insensitive collation would change both.
- `HasMaxLength(50)` and `HasMaxLength(100)` on Users, and the validator's `MaximumLength(200)` on Name and `MaximumLength(1000)` on Description, count UTF-16 code units. The model counts Dafny characters (Unicode scalar values), so for text with characters outside the Basic Multilingual Plane the model accepts lengths the source rejects: a Name of 101 such characters is 202 code units.
- `Required` on Username, PasswordHash and CreatedAt only excludes null, and no value in the model can be null.
- `int.Parse` details beyond the invariant culture's ASCII sign and digits: trailing NUL characters and culture-specific sign symbols.
- Concurrency between requests, including the check-then-insert race in `CreateUserAsync`. Requests are modelled one at a time.
- The unordered `FirstOrDefault`. It is modelled as the matching row with the smallest Id; under the unique Username index at most one row matches.
- The order of products with equal CreatedAt. The model lists them by ascending Id; the store fixes no order.
- AutoMapper. The Product to ProductDto mapping is an explicit copy of every field.
- The CreateProduct command, its handler and validator are not part of this model. `ProductsController.Create` takes the id that handler returns.
- The mediator pipeline and its registrations (`AddApplicationServices`) are not part of this model. The controllers call the handlers directly, so whether the validator runs before the Update handler is not modelled; the validator is modelled on its own.
- `[ApiController]` conventions: automatic 400 responses for model-binding errors, and the ProblemDetails bodies it adds to `BadRequest()` and `NotFound()`.
- The declaration of NotFoundException. Its base class and message are a parameter of the middleware (`NotFoundDeclaration`).
- Logging, response streaming and JSON text encoding. The body is a JSON value tree; escaping and whitespace are not modelled.
- `Program.cs` startup wiring: dependency injection, CORS, Swagger, HTTPS redirection and middleware order.
- Roles. No modelled operation sets them; a new user has none.

## Findings

| source | as written | input that shows it | evidently intended | confidence | as-written member | corrected member |
|---|---|---|---|---|---|---|
| user-workspace/src/WebApi/Middleware/ExceptionHandlingMiddleware.cs:70 | `JsonSerializer.Serialize(response)` takes its type argument from the declared type `ErrorResponse`, so only Status and Message are written, even when `response` holds a `ValidationErrorResponse` | a `ValidationException` with the single failure ("Name", "Name is required.") gives the same body as one with no failures, and the body has no Errors | the body of a validation failure also carries Errors, one {PropertyName, ErrorMessage} per failure, as the `ValidationErrorResponse` class is declared for | high; not executed | ExceptionHandling.DeclaredSerializationDropsErrors | ExceptionHandling.RuntimeSerializationKeepsErrors |
