# SecureSpringStarter authentication core, in Dafny

This project models the authentication decision logic of SecureSpringStarter, a Spring Boot starter with JWT security. The model covers:

- **The bearer-token request filter** (`AuthTokenFilter`). It reads `Authorization: Bearer <token>`, resolves the token's subject to a stored user, and sets the per-request security context at most once before handing the request on.
- **Token claims and checks** (`JWTUtils`).
  - Issued claims: `sub` is the user name, `roles` the authorities, `iat` the first clock read, `exp` the second clock read plus the TTL.
  - A token is valid when its subject matches and its expiry is not strictly before now.
  - `validateJwtToken` turns the caught parser failures into `false`.
- **Account state and user services** (`UserPrincipal`, `UserDetailsServiceImpl`, `UserServiceImpl`).
  - The four status predicates over the flags active, locked, blocked and deleted.
  - The one-role, one-authority principal.
  - Lookups over the `users` table, modelled as a sequence of rows in insertion order with find-first semantics.
  - The ordered error checks of `getProfile`.
  - `save` and `count` on a `UserStore` object.
- **Workflows and input checks** (`AuthServiceImpl`, `InitUser`, `ValidateUtil`, `User`, `UserDTO`).
  - Registration runs four ordered checks before a single save, then requests a token.
  - Login is a lookup, then a token.
  - Admin seeding is idempotent.
  - The email pattern is a recursive recogniser, proved equal to a reference definition of an address: dot-joined atoms, `@`, two or more dot-joined labels.
  - The DTO is copied from a row and then stripped in place.

Exceptions are values. A `Fault` is one of:
- `Runtime(message)`, with the source's exact message;
- `TokenRejected(kind)`, for the parser's exception classes;
- `NullDereference`;
- `ConstraintViolation` and `DuplicateKey`, for what the persistence layer refuses.

Framework and library code is passed in as parameters:
- jjwt signing and parsing are a `Codec` of two functions. `RoundTrips` states the library's promise: a signed token is not blank and parses back to its claims. For the `roles` claim this is an idealisation (see "## Left out").
- The blank-token and expired-token checks that jjwt makes are written out in `Jwt.ExtractAllClaims`.
- bcrypt is a function `encode`.
- libphonenumber is a predicate `isMobileNumber`.
- `JWTToken.generate` is a function `issue`. It authenticates the submitted credentials against the table as it stands and signs a token.
- The clock is an integer `now` in milliseconds.

The modules follow the source files:
- `wrappers.dfy`, `errors.dfy`, `java_text.dfy`: support modules.
- `user.dfy`: `User`, `UserRole`.
- `user_dto.dfy`: `UserDTO`.
- `validate.dfy`: `ValidateUtil`.
- `principals.dfy`: `UserPrincipal`.
- `user_service.dfy`: `UserServiceImpl` and the repository.
- `user_details_service.dfy`: `UserDetailsServiceImpl`.
- `jwt.dfy`: `JWTUtils`.
- `auth_filter.dfy`: `AuthTokenFilter`.
- `auth_service.dfy`: `AuthServiceImpl`.
- `init_user.dfy`: `InitUser`.

Behaviours of the code worth knowing, each proved in the model:

- **Token failures escape the filter.** `extractUsername` is called outside any `try`, so a parser exception escapes and the chain is not called (`AuthFilter.FilterDecision` gives `Abort`).
- **An unknown subject escapes too.** `loadUserByUsername` throws for a subject with no row, and that exception also escapes the filter (`AuthFilter.UnknownSubjectAborts`).
- **A token is not expired at exactly its expiry.** Both the parser and `isTokenExpired` use "strictly before now", so a token checked at exactly its `exp` is still valid (`Jwt.GeneratedTokenChecks`).
- **Account flags do not gate the filter.** A blocked, locked, inactive or deleted user with a good token is authenticated (`AuthFilter.GeneratedTokenAuthenticates`). Only `getProfile` re-checks the stored row.
- **`isTokenExpired` never fires at the instant it is asked.** The parser has already refused an expired token with `ExpiredJwtException` (`Jwt.ExpiryCheckSubsumedByParser`).
- **A token without an expiration escapes the filter.** `isTokenExpired` dereferences the missing `exp`, and the null-pointer exception escapes (`AuthFilter.MissingExpiryAborts`).
- **The filter's "token not valid" branch cannot be reached within one request.** The principal is loaded by the token's own subject, so the subject always matches, and an expired token has already been refused by the parser. `AuthFilter.FilterDecision` still states that branch (proceed without authenticating), but no input reaches it.
- **Registration without a mobile is refused once any row lacks a mobile.** See "## Findings".

## Model

| member | source | states |
|---|---|---|
| Users.RoleName | src/main/java/com/shehabsalah/securespringstarter/user/enums/UserRole.java:16-19 | the name of a role starts with `ROLE_` |
| Users.RoleNameInjective | src/main/java/com/shehabsalah/securespringstarter/user/enums/UserRole.java:16-19 | distinct roles have distinct names, so an authority label names one role |
| Users.Built | src/main/java/com/shehabsalah/securespringstarter/user/entities/User.java:43-54 | a built row is active, not locked, not blocked and not deleted, has no id or timestamps, and holds the given fields |
| Users.IdeographicSpacesAreNotBlank | src/main/java/com/shehabsalah/securespringstarter/user/entities/User.java:23-39 | `@NotBlank` is the trim test, not `hasText`: three ideographic spaces pass it though they have no text |
| Users.NulsAreBlank | src/main/java/com/shehabsalah/securespringstarter/user/entities/User.java:23-39 | three NULs fail `@NotBlank` though they have text |
| UserDtos.DtoOf | src/main/java/com/shehabsalah/securespringstarter/user/entities/User.java:61-75 | the DTO of a row never carries the password |
| UserDtos.UserDTO.FromUser | src/main/java/com/shehabsalah/securespringstarter/user/entities/User.java:61-75 | `toDTO` copies id, names, email, mobile, role, the four flags and both timestamps unchanged, and leaves the password null |
| UserDtos.Sanitised | src/main/java/com/shehabsalah/securespringstarter/user/dto/UserDTO.java:47-56 | the stripped fields are a view (the eight sensitive fields null) with the same id, names, email and mobile |
| UserDtos.SanitisedIdempotent | src/main/java/com/shehabsalah/securespringstarter/user/dto/UserDTO.java:47-58 | stripping twice gives the same fields as stripping once |
| UserDtos.ViewOfUser | src/main/java/com/shehabsalah/securespringstarter/user/services/UserServiceImpl.java:72 | the view of a row holds exactly its id, names, email and mobile |
| UserDtos.UserDTO.ToViewDTO | src/main/java/com/shehabsalah/securespringstarter/user/dto/UserDTO.java:47-58 | nulls the eight sensitive fields of the receiver itself, keeps the other five, and returns the receiver |
| Validation.MatchesDotAtom | src/main/java/com/shehabsalah/securespringstarter/utils/ValidateUtil.java:70 | the local part `atom(?:\.atom)*`, matched one dot at a time |
| Validation.MatchesDomain | src/main/java/com/shehabsalah/securespringstarter/utils/ValidateUtil.java:70 | the domain `(?:label\.)+label`, matched one dot at a time |
| Validation.MatchesEmailPattern | src/main/java/com/shehabsalah/securespringstarter/utils/ValidateUtil.java:69-71 | the whole input matches: a local part, its first `@`, and a domain |
| Validation.DotAtomPieces | src/main/java/com/shehabsalah/securespringstarter/utils/ValidateUtil.java:70 | the local-part recogniser accepts exactly the strings whose dot-separated pieces are all non-empty lowercase atext atoms |
| Validation.DomainPieces | src/main/java/com/shehabsalah/securespringstarter/utils/ValidateUtil.java:70 | the domain recogniser accepts exactly the strings cut by dots into two or more LDH labels that start and end with a letter or digit |
| Validation.EmailPatternIsAddress | src/main/java/com/shehabsalah/securespringstarter/utils/ValidateUtil.java:69-71 | the recogniser accepts a string if and only if it is dot-joined atoms, `@`, and two or more dot-joined labels |
| Validation.PatternGivesAddress | src/main/java/com/shehabsalah/securespringstarter/utils/ValidateUtil.java:69-71 | a string the recogniser accepts, cut at its first `@` and at its dots, is dot-joined atoms, `@`, and two or more dot-joined labels |
| Validation.AddressMatchesPattern | src/main/java/com/shehabsalah/securespringstarter/utils/ValidateUtil.java:69-71 | dot-joined atoms, `@`, and two or more dot-joined labels are always accepted by the recogniser |
| Validation.AcceptedCharacters | src/main/java/com/shehabsalah/securespringstarter/utils/ValidateUtil.java:69-71 | an accepted address is non-empty printable ASCII over atext, `.` and `@`, with no upper case and no whitespace |
| Validation.ExactlyOneAt | src/main/java/com/shehabsalah/securespringstarter/utils/ValidateUtil.java:70 | an accepted address contains exactly one `@` |
| Validation.DotAtomHasNoStrayDot | src/main/java/com/shehabsalah/securespringstarter/utils/ValidateUtil.java:70 | an accepted local part is non-empty, with no leading, trailing or doubled dot |
| Validation.AcceptedParts | src/main/java/com/shehabsalah/securespringstarter/utils/ValidateUtil.java:70 | before the `@` is a local part without stray dots; after it are two or more labels that join back to the domain |
| Validation.CheckEmailValidation | src/main/java/com/shehabsalah/securespringstarter/utils/ValidateUtil.java:67-74 | null is refused, and anything accepted matches the pattern |
| Validation.EmailValidationIffPattern | src/main/java/com/shehabsalah/securespringstarter/utils/ValidateUtil.java:67-74 | the blank, NUL and over-255 guards only add a length limit: accepted if and only if at most 255 characters and matching the pattern |
| Validation.AcceptedIsShortMatch | src/main/java/com/shehabsalah/securespringstarter/utils/ValidateUtil.java:67-74 | an accepted address matches the pattern and has at most 255 characters |
| Validation.ShortMatchAccepted | src/main/java/com/shehabsalah/securespringstarter/utils/ValidateUtil.java:67-74 | a match of at most 255 characters passes the blank, NUL and length guards and is accepted |
| Validation.EmailValidationRejectsUpperCase | src/main/java/com/shehabsalah/securespringstarter/utils/ValidateUtil.java:69-71 | any upper-case letter makes an address invalid |
| Validation.EmailValidationRejectsPadding | src/main/java/com/shehabsalah/securespringstarter/utils/ValidateUtil.java:68-71 | leading or trailing whitespace makes an address invalid, because the untrimmed input is matched |
| Validation.CheckMobileNumberValidation | src/main/java/com/shehabsalah/securespringstarter/utils/ValidateUtil.java:37-58 | null or empty raises "The mobile is missing."; a trimmed prefix other than `00` or `+` raises the missing-country-key message; otherwise the result is the library's verdict |
| Principals.Build | src/main/java/com/shehabsalah/securespringstarter/security/UserPrincipal.java:52-64 | a built principal wraps the row and has exactly one authority, a `ROLE_` label |
| Principals.BuildGrantsExactlyItsRole | src/main/java/com/shehabsalah/securespringstarter/security/UserPrincipal.java:52-58 | a role's name is among the authorities of a built principal if and only if it is the row's role |
| Principals.BuildCredentials | src/main/java/com/shehabsalah/securespringstarter/security/UserPrincipal.java:66-74 | user name is the row's email; password is the row's stored hash |
| Principals.GetUsername | src/main/java/com/shehabsalah/securespringstarter/security/UserPrincipal.java:66-69 | the user name is the row's email |
| Principals.GetPassword | src/main/java/com/shehabsalah/securespringstarter/security/UserPrincipal.java:71-74 | the password is the row's stored hash |
| Principals.IsAccountNonExpired | src/main/java/com/shehabsalah/securespringstarter/security/UserPrincipal.java:76-79 | always true |
| Principals.IsAccountNonLocked | src/main/java/com/shehabsalah/securespringstarter/security/UserPrincipal.java:81-84 | not blocked, not locked and not deleted |
| Principals.IsCredentialsNonExpired | src/main/java/com/shehabsalah/securespringstarter/security/UserPrincipal.java:86-89 | not blocked, not locked, active and not deleted |
| Principals.IsEnabled | src/main/java/com/shehabsalah/securespringstarter/security/UserPrincipal.java:91-94 | active and not deleted |
| Principals.StatusChecksAgree | src/main/java/com/shehabsalah/securespringstarter/security/UserPrincipal.java:76-94 | accounts never expire; the lock check ignores `active`; credentials-non-expired holds if and only if non-locked and enabled; all four hold if and only if the row is in good standing |
| Principals.BuiltUserInGoodStanding | src/main/java/com/shehabsalah/securespringstarter/security/UserPrincipal.java:81-94 | a freshly built row passes every status check |
| UserServices.FindFirstByEmail | src/main/java/com/shehabsalah/securespringstarter/user/repositories/UserRepository.java:31 | a row is found if and only if some row has the email, and the row found is the earliest one with that email in stored order |
| UserServices.FindFirstByEmailUnique | src/main/java/com/shehabsalah/securespringstarter/user/repositories/UserRepository.java:31 | with unique emails, finding by a row's email gives that row |
| UserServices.GetUserByEmail | src/main/java/com/shehabsalah/securespringstarter/user/services/UserServiceImpl.java:36-42 | returns the earliest stored row with the email exactly when one exists; otherwise raises "User not found with email: " + email |
| UserServices.ExistsByEmailOrMobileAsWritten | src/main/java/com/shehabsalah/securespringstarter/user/services/UserServiceImpl.java:76-78 | as written: true if and only if some row has the email or the same mobile, where a null mobile matches a null mobile |
| UserServices.AsWrittenRejectsEveryMobilelessEmail | src/main/java/com/shehabsalah/securespringstarter/user/repositories/UserRepository.java:40 | once any row lacks a mobile, the as-written check is true for every email with no mobile |
| UserServices.CorrectedWithinAsWritten | src/main/java/com/shehabsalah/securespringstarter/user/services/UserServiceImpl.java:76-78 | every clash the corrected check finds, the query as written finds too |
| UserServices.AsWrittenAgreesWhenMobileGiven | src/main/java/com/shehabsalah/securespringstarter/user/services/UserServiceImpl.java:76-78 | with a mobile given, the query as written and the corrected check agree |
| UserServices.ExistsByEmailOrMobile | src/main/java/com/shehabsalah/securespringstarter/user/services/UserServiceImpl.java:76-78 | corrected: true if and only if some row has the email, or has the mobile when one is given |
| UserServices.NoMobileMeansEmailOnly | src/main/java/com/shehabsalah/securespringstarter/user/services/UserServiceImpl.java:76-78 | without a mobile, the corrected check is the email lookup |
| UserServices.UniqueKeysAfterAppend | src/main/java/com/shehabsalah/securespringstarter/user/entities/User.java:31-35 | appending a row keeps emails and non-null mobiles unique if and only if the corrected check finds no clash |
| UserServices.InsertFault | src/main/java/com/shehabsalah/securespringstarter/user/entities/User.java:23-39 | a row is accepted if and only if it meets its declared field constraints (`@NotBlank` as a non-empty `trim()`, `@Size` in UTF-16 units) and clashes with no stored email or non-null mobile |
| UserServices.UserStore.Save | src/main/java/com/shehabsalah/securespringstarter/user/services/UserServiceImpl.java:81-83 | appends and returns the row, or raises and leaves the table unchanged; unique keys are preserved |
| UserServices.UserStore.Count | src/main/java/com/shehabsalah/securespringstarter/user/services/UserServiceImpl.java:86-88 | the number of stored rows |
| UserServices.ProfileUser | src/main/java/com/shehabsalah/securespringstarter/user/services/UserServiceImpl.java:45-73 | errors in order: no authentication dereferences null; no principal or no row gives "User not found"; not active, locked or blocked wins over deleted; success only for a stored row in good standing |
| UserServices.ProfileReadsCurrentRow | src/main/java/com/shehabsalah/securespringstarter/user/services/UserServiceImpl.java:54-72 | the profile is decided by the row stored now: it succeeds exactly when that row is in good standing, whatever the principal's copy says |
| UserServices.GetProfile | src/main/java/com/shehabsalah/securespringstarter/user/services/UserServiceImpl.java:45-73 | raises what `ProfileUser` raises; otherwise returns a new DTO that is the view of the current row |
| UserDetailsServices.LoadUserByUsername | src/main/java/com/shehabsalah/securespringstarter/security/UserDetailsServiceImpl.java:26-30 | succeeds exactly when a row has the name; the principal wraps the earliest such row, its user name is the requested name, and its authorities are that row's one role; otherwise the not-found error |
| UserDetailsServices.LoadFindsStoredRow | src/main/java/com/shehabsalah/securespringstarter/security/UserDetailsServiceImpl.java:26-30 | with unique emails, loading by a row's email builds that very row, whatever its flags |
| Jwt.GenerateJwtToken | src/main/java/com/shehabsalah/securespringstarter/security/JWTUtils.java:44-54 | the token parses back to subject = user name, roles = authorities, `exp` at least `iat` + TTL when the clock does not go back; a missing principal dereferences null |
| Jwt.ExtractAllClaims | src/main/java/com/shehabsalah/securespringstarter/security/JWTUtils.java:148-154 | a blank token is refused as an empty argument; a parser failure is passed on; parsed claims whose expiry is strictly before now are refused as expired, and any other parsed claims are returned |
| Jwt.ExtractUsername | src/main/java/com/shehabsalah/securespringstarter/security/JWTUtils.java:62-64 | the subject of the parsed claims, or the parser's failure |
| Jwt.IsTokenExpired | src/main/java/com/shehabsalah/securespringstarter/security/JWTUtils.java:115-117 | a claims failure escapes as that failure; a missing expiry dereferences null; otherwise true if and only if the expiry is strictly before now |
| Jwt.ExpiryCheckSubsumedByParser | src/main/java/com/shehabsalah/securespringstarter/security/JWTUtils.java:115-117 | at one instant the expiry check never reports expired |
| Jwt.IsTokenValid | src/main/java/com/shehabsalah/securespringstarter/security/JWTUtils.java:104-107 | true if and only if the claims parse with the principal's user name as subject and an expiry; false if and only if a different subject is present; otherwise a claims failure escapes as that failure, and a missing subject or expiry dereferences null |
| Jwt.ValidateJwtToken | src/main/java/com/shehabsalah/securespringstarter/security/JWTUtils.java:72-95 | true if and only if the claims parse with a subject; malformed, expired, unsupported, empty and bad-signature tokens give false; other parser failures escape |
| Jwt.GeneratedTokenChecks | src/main/java/com/shehabsalah/securespringstarter/security/JWTUtils.java:44-64 | a generated token gives back the user name and is valid up to and including its expiry; one millisecond later it is refused as expired |
| AuthFilter.ParseJwt | src/main/java/com/shehabsalah/securespringstarter/security/AuthTokenFilter.java:89-97 | a token is returned if and only if the header has text and starts with `Bearer `; the header is that prefix followed by the token |
| AuthFilter.ParseJwtRoundTrip | src/main/java/com/shehabsalah/securespringstarter/security/AuthTokenFilter.java:92-93 | `Bearer ` + t parses to t for every t, including the empty string |
| AuthFilter.ParseJwtRefusals | src/main/java/com/shehabsalah/securespringstarter/security/AuthTokenFilter.java:90-96 | no header, a blank header, `bearer x` and `Basic x` give no token |
| AuthFilter.FilterDecision | src/main/java/com/shehabsalah/securespringstarter/security/AuthTokenFilter.java:53-81 | no token: proceed; a parser failure escapes; no subject or a non-empty context: proceed; an unknown subject escapes; a validity failure escapes; a token not valid for the principal: proceed; a valid one: authenticate with the loaded principal, null credentials and its authorities, and only into an empty context |
| AuthFilter.UnknownSubjectAborts | src/main/java/com/shehabsalah/securespringstarter/security/AuthTokenFilter.java:62-64 | a token whose subject names no row, sent with an empty context, escapes with "User not found with email: " + subject |
| AuthFilter.MissingExpiryAborts | src/main/java/com/shehabsalah/securespringstarter/security/AuthTokenFilter.java:62-65 | a token naming a stored user but without an expiration, sent with an empty context, escapes with a null dereference |
| AuthFilter.ExistingAuthenticationKept | src/main/java/com/shehabsalah/securespringstarter/security/AuthTokenFilter.java:63 | an existing authentication is never replaced and the table is not consulted |
| AuthFilter.EmptyBearerTokenAborts | src/main/java/com/shehabsalah/securespringstarter/security/AuthTokenFilter.java:56-62 | the header `Bearer ` escapes with the parser's empty-argument failure |
| AuthFilter.GeneratedTokenAuthenticates | src/main/java/com/shehabsalah/securespringstarter/security/AuthTokenFilter.java:56-80 | a generated token for a stored row authenticates as that row, with its role as only authority and whatever its flags, until it expires; afterwards it escapes as expired |
| AuthFilter.FilterChain.DoFilter | src/main/java/com/shehabsalah/securespringstarter/security/AuthTokenFilter.java:80 | the rest of the chain sees the context as it stands |
| AuthFilter.DoFilterInternal | src/main/java/com/shehabsalah/securespringstarter/security/AuthTokenFilter.java:53-81 | on proceed the context is unchanged and the chain is called once; on authenticate the context is set and then the chain is called once; on an escaping failure the chain is not called |
| AuthServices.RegistrationFault | src/main/java/com/shehabsalah/securespringstarter/user/services/AuthServiceImpl.java:46-65 | checks in order: email, mobile when given, existing email or mobile by the derived query as it runs (a null mobile matches rows without one), password confirmation; the first failure's message; none if and only if all pass |
| AuthServices.EmptyMobileRefused | src/main/java/com/shehabsalah/securespringstarter/user/services/AuthServiceImpl.java:51-53 | an empty mobile is refused as missing |
| AuthServices.NewUser | src/main/java/com/shehabsalah/securespringstarter/user/services/AuthServiceImpl.java:67-74 | the new row holds the submitted names, email and mobile, the encoded password, the user role and default flags |
| AuthServices.RegistrationChecksPreventDuplicates | src/main/java/com/shehabsalah/securespringstarter/user/services/AuthServiceImpl.java:58-76 | after the checks pass, saving never hits a unique column, and unique keys are preserved |
| AuthServices.Respond | src/main/java/com/shehabsalah/securespringstarter/user/services/AuthServiceImpl.java:82-86 | the response holds a new view of the row, the token and type `Bearer` |
| AuthServices.SaveAndIssue | src/main/java/com/shehabsalah/securespringstarter/user/services/AuthServiceImpl.java:76-86 | the token is asked for only after the save, against the table holding the new row; a token failure leaves the row saved |
| AuthServices.Register | src/main/java/com/shehabsalah/securespringstarter/user/services/AuthServiceImpl.java:39-87 | refuses exactly as `RegistrationFault` says and then saves nothing; otherwise exactly the new row is appended before the token is asked for; unique keys are preserved |
| AuthServices.Login | src/main/java/com/shehabsalah/securespringstarter/user/services/AuthServiceImpl.java:90-103 | an unknown email fails with the not-found error before any token; otherwise the token, type `Bearer` and the view of the stored row |
| AuthServices.SeededAdminBlocksMobilelessSignUpAsWritten | src/main/java/com/shehabsalah/securespringstarter/user/services/AuthServiceImpl.java:58-60 | after seeding, every registration with a valid email and no mobile is refused as already existing; the corrected check would refuse it only for the admin's email |
| InitUsers.AdminUser | src/main/java/com/shehabsalah/securespringstarter/user/config/InitUser.java:96-102 | the admin row is "Admin" "User", the given email, no mobile, the encoded password, the admin role and default flags |
| InitUsers.SeedAdmin | src/main/java/com/shehabsalah/securespringstarter/user/config/InitUser.java:73-106 | a non-empty table is left alone; on an empty one the email is checked before the password length; success appends exactly the admin row |
| InitUsers.SeedAdminKeepsKeysUnique | src/main/java/com/shehabsalah/securespringstarter/user/config/InitUser.java:77-104 | seeding a table whose emails and mobiles are unique leaves them unique |
| InitUsers.SeedAdminIdempotent | src/main/java/com/shehabsalah/securespringstarter/user/config/InitUser.java:77-79 | a second run leaves the table as the first left it |
| InitUsers.SeedAdminSucceeds | src/main/java/com/shehabsalah/securespringstarter/user/config/InitUser.java:83-104 | with a valid email and password and a hash that meets its constraints, seeding an empty table gives exactly the admin row |
| InitUsers.AdminNamesMeetConstraints | src/main/java/com/shehabsalah/securespringstarter/user/config/InitUser.java:97-98 | the admin's fixed names meet the 3..50 non-blank constraint |
| InitUsers.InitAdminUser | src/main/java/com/shehabsalah/securespringstarter/user/config/InitUser.java:73-106 | the table ends as `SeedAdmin` says, and is unchanged when it raises |

## Left out

- Jwt.GenerateJwtToken and Jwt.GeneratedTokenChecks treat the `roles` claim as the authority label strings. The source writes `SimpleGrantedAuthority` objects, which the JSON serialiser emits as `{"authority": ...}` objects and which parse back as a list of maps. `RoundTrips` idealises this, and no core code reads `roles` back.
- Signing, parsing and key derivation (HS512 compact JWS, base64 secret, key-length check) are jjwt's code. They are the `Codec` parameter, under the `RoundTrips` hypothesis.
- Parser failures other than a blank token and an expiry before now are whatever `Codec.parse` returns.
- Jwt.GenerateJwtToken keeps `iat` and `exp` in milliseconds. The library stores whole seconds, so an expiry can be up to a second earlier than modelled.
- `Integer.parseInt` of the configured TTL is not modelled. The TTL is an integer parameter, and a non-numeric setting is not considered.
- bcrypt is the `encode` parameter, libphonenumber the `isMobileNumber` parameter, and `JWTToken.generate` the `issue` parameter.
- AuthServices.Register and AuthServices.Login do not model `JWTToken.generate` writing the authentication into the security context, because that happens inside the `issue` parameter.
- A principal that is not a `UserPrincipal` (the anonymous principal, which would raise `ClassCastException` in `getProfile` and `generateJwtToken`) is not modelled. An authentication holds an optional `UserPrincipal`.
- `getProfile`'s "principal's user is null" case is folded into "no principal". `UserPrincipal.build` dereferences the row, so a principal the filter makes always wraps one.
- The request details attached by `setDetails(new WebAuthenticationDetailsSource().buildDetails(request))` are not modelled.
- Logging is not modelled.
- The persistence layer's id and `createdAt`/`updatedAt` assignment is not modelled. UserServices.UserStore.Save returns the row as given, so a response's id and timestamps are those of the row passed in.
- The entity's `@Email` constraint at persist time is not modelled. Only `@NotBlank`/`@Size` and the unique columns are.
- Controller-level bean validation of the request objects is not modelled. Request strings are non-null; the mobile is optional.
- Each request reads the clock once (`now`), although the source reads it at every check.
- Concurrency, transactions and two registrations racing are not modelled.
- Spring Security configuration (URL matching, CORS, filter order), `AuthEntryPointJwt`, the controllers and `ResponseDTO` are outside this model.

## Findings

| source | as written | input that shows it | evidently intended | confidence | as-written member | corrected member |
|---|---|---|---|---|---|---|
| src/main/java/com/shehabsalah/securespringstarter/user/services/UserServiceImpl.java:76-78 | `register` passes a null mobile to the derived query `findFirstByEmailOrMobile`. Spring Data turns an equality with a null argument into `mobile IS NULL`, which matches every row without a mobile. | Seed the admin (it has no mobile), then register `new@example.com` with no mobile. It is refused with "User with email: new@example.com or mobile: null already exists." | A missing mobile matches nothing; only a taken email, or a taken mobile when one is given, refuses. | medium, not executed | UserServices.ExistsByEmailOrMobileAsWritten, used by AuthServices.RegistrationFault, with AuthServices.SeededAdminBlocksMobilelessSignUpAsWritten | UserServices.ExistsByEmailOrMobile, used by UserServices.InsertFault for the unique columns, with UserServices.UniqueKeysAfterAppend |
