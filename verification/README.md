# medspace-backend core, modelled in Dafny

This project models the parts of the medspace backend that carry real logic. Each part is written as immutable datatypes and pure functions, with its properties proved.

- **External clinic import** (`ExternalClinicApiClient`): `fetchClinics` walks the pages of the external clinic directory. For each page it retries failed attempts with a capped exponential backoff. It stamps each fetched batch with one creation instant, saves the batch, and either returns every batch or throws. `buildUrl` lays out the request URL.
  - The world is a script. `net(i)` is what happens during the i-th attempt of a run: the transport throws, or a status code arrives with a body that is, or is not, a JSON array. For a 200 with an array, `net(i)` also says whether `saveAll` throws.
  - `clock(i)` is what `Instant.now()` returns during the i-th attempt.
  - What the client does to the world is recorded as a trace of events: sleeps, requests, returning and throwing `saveAll` calls.
- **Clinic repository** (`ClinicRepositoryImpl`): the partial update `updateClinic`, `deleteClinicById` and `assignClinicToUser` work over a map from id to row. `getFilteredClinics` is modelled as the joined SQL query followed by `DISTINCT`. The city keys of `countByCity` and `getByCategoryAndCity` are modelled on both the Java side and the SQL side.
- **User registration form** (`CreateUserDTO`): the `@Pattern` on `userType`, and `toUser`.
- **Clinic photos** (`ClinicPhotoService`): `createPhoto` and `validatePhotoOwnership`, over a map from photo id to photo.

Modules (one file each): `Wrappers` (Option/Result, `Instant`, `Repeat`), `Text` (join/split at a delimiter), `Decimal` (`%d` formatting), `FormEncoding` (`URLEncoder.encode` then `replace("+", "%20")`), `ClinicApiUrl`, `FetchClinics`, `ClinicRepository`, `CityKey`, `CreateUser`, `ClinicPhotos`.

What the import code does that a quick reading might miss:
- **Fatal conditions are retried.** An answer that is not a JSON array, a status other than 200/429/503, and a throwing `saveAll` all raise inside the `try` and reach the generic `catch`. So each one uses up a retry like a transport error does; none is fatal at once.
- **The first sleep is 4000 ms, not 2000 ms.** The delay is doubled when an attempt fails, before the next attempt sleeps. The first sleep is therefore `min(2 * INITIAL_DELAY_MS, MAX_DELAY_MS)`.
- **Two failure paths.** A 429/503 on the last attempt ends the loop and throws "Failed to fetch … after 3 attempts" (`RetriesExhausted`). An exception on the last attempt is rethrown with its cause (`AttemptFailed`).
- **The result is not bounded by `EXACT_RECORDS`.** The single page asks for `BATCH_SIZE` = 1000 records, and whatever the page holds is returned.

## Model

| member | source | states |
|---|---|---|
| FormEncoding.EncodeSegmentIsPercentEncode | src/main/java/com/medspace/infrastructure/client/ExternalClinicApiClient.java:63-65 | Form-encoding a segment and then replacing `+` by `%20` equals a per-character encoder that keeps URLEncoder's safe set (alphanumerics and `. - * _`) and escapes every other UTF-8 byte as `%XY` in uppercase hex. |
| FormEncoding.EncodeSegmentHasNoDelimiters | src/main/java/com/medspace/infrastructure/client/ExternalClinicApiClient.java:63-65 | The encoded activity contains no `+`, no `/` and no space. |
| FormEncoding.EncodeSegmentRoundTrip | src/main/java/com/medspace/infrastructure/client/ExternalClinicApiClient.java:63-65 | Percent-decoding the encoded segment gives back exactly the UTF-8 bytes of the original text. |
| FormEncoding.ReplacePlus | src/main/java/com/medspace/infrastructure/client/ExternalClinicApiClient.java:65 | After the replace no `+` is left, and a string without `+` is unchanged. |
| Decimal.IntRoundTrip | src/main/java/com/medspace/infrastructure/client/ExternalClinicApiClient.java:69-70 | The `%d` rendering of any integer parses back to that integer. |
| Decimal.IntToString | src/main/java/com/medspace/infrastructure/client/ExternalClinicApiClient.java:69-70 | `%d` gives an optional minus sign followed by digits only, and the sign appears exactly for negative numbers. |
| Text.SplitJoin | src/main/java/com/medspace/infrastructure/client/ExternalClinicApiClient.java:69-70 | Cutting a `/`-joined list at `/` gives back the list when no part contains `/`. |
| ClinicApiUrl.UrlSegments | src/main/java/com/medspace/infrastructure/client/ExternalClinicApiClient.java:61-70 | The URL is `BASE_API_URL/` followed by exactly five `/`-separated segments: encoded activity, `00`, page, page size, token. |
| ClinicApiUrl.UrlRoundTrip | src/main/java/com/medspace/infrastructure/client/ExternalClinicApiClient.java:61-70 | Each segment of the URL carries its input back: the activity decodes to its bytes and has no `+`, the numbers parse to page and page size, and the token is verbatim. |
| ClinicApiUrl.BuildUrlRoundTrip | src/main/java/com/medspace/infrastructure/client/ExternalClinicApiClient.java:61-85 | The same, for `buildUrl` with the fixed activity description and entity code. |
| FetchClinics.BackoffStep | src/main/java/com/medspace/infrastructure/client/ExternalClinicApiClient.java:135-207 | One step of `delay = min(delay * 2, MAX_DELAY_MS)` moves the closed form `min(INITIAL * 2^k, MAX)` from k to k+1. |
| FetchClinics.BackoffMonotone | src/main/java/com/medspace/infrastructure/client/ExternalClinicApiClient.java:135-207 | The delay never decreases as failures accumulate and never exceeds `MAX_DELAY_MS`. |
| FetchClinics.RequestUrlCarriesRequest | src/main/java/com/medspace/infrastructure/client/ExternalClinicApiClient.java:148 | The URL fetched for a request carries that request's page, page size and the configured token, each recoverable from its segment, when the token holds no `/`. |
| FetchClinics.Stamp | src/main/java/com/medspace/infrastructure/client/ExternalClinicApiClient.java:179-182 | Stamping keeps every record in place and sets only its `createdAt`, to the given instant. |
| FetchClinics.FetchPage | src/main/java/com/medspace/infrastructure/client/ExternalClinicApiClient.java:138-224 | One page makes between 1 and `MAX_RETRIES` attempts. A failed page has used every attempt. The page stops at the first successful attempt, and only there. Its batch is that attempt's records stamped with that attempt's instant, uniformly. |
| FetchClinics.PageTrace | src/main/java/com/medspace/infrastructure/client/ExternalClinicApiClient.java:138-224 | Within a page, the requests are that page with `BATCH_SIZE`, once per attempt. The sleeps are `Backoff(k)` for each attempt with `retryCount = k > 0`, in order. `saveAll` returns once, with the batch, exactly when the page succeeds. Each kind of event is stated as its own sequence; their interleaving is `PageTraceOrder`. |
| FetchClinics.PageTraceOrder | src/main/java/com/medspace/infrastructure/client/ExternalClinicApiClient.java:138-148 | Within a page, every sleep comes immediately before a request, and every request except one at the very start comes immediately after a sleep. The page's first event is the request on a first attempt and the backoff sleep on a retry. |
| FetchClinics.PageOrder | src/main/java/com/medspace/infrastructure/client/ExternalClinicApiClient.java:138-148 | A fresh page starts with its request, with no sleep in front, and each later request is immediately preceded by its backoff sleep. |
| FetchClinics.PageSaves | src/main/java/com/medspace/infrastructure/client/ExternalClinicApiClient.java:185-187 | A fresh page's trace shows one returning `saveAll`, with its batch, if the page succeeds, and none otherwise. |
| FetchClinics.PageRequests | src/main/java/com/medspace/infrastructure/client/ExternalClinicApiClient.java:138-148 | A fresh page requests itself once per attempt and requests nothing else. |
| FetchClinics.PageSleeps | src/main/java/com/medspace/infrastructure/client/ExternalClinicApiClient.java:143-146 | A fresh page sleeps `Backoff(1), …, Backoff(attempts-1)`, in that order, one value per retry. Where each sleep falls among the requests is `PageOrder`. |
| FetchClinics.FetchPages | src/main/java/com/medspace/infrastructure/client/ExternalClinicApiClient.java:133-232 | A run over pages p..q makes at most `PageCount * MAX_RETRIES` attempts in total, and a failure names a page within p..q. The per-page bound is stated by `RunRequests`. |
| FetchClinics.FetchClinics | src/main/java/com/medspace/infrastructure/client/ExternalClinicApiClient.java:127-235 | `fetchClinics` runs pages 1 to `TotalPages` within `TotalPages * MAX_RETRIES` attempts. All or nothing: it returns every saved batch in page order, one save per page, or throws for a page in 1..`TotalPages` after saving exactly the pages before it. The page count is `TotalPagesIsCeiling`; with the client's constants it is one page (`SourceIsOnePage`), and the run is that page (`SourceRun`). |
| FetchClinics.TotalPagesIsCeiling | src/main/java/com/medspace/infrastructure/client/ExternalClinicApiClient.java:131 | The page count is the ceiling of `EXACT_RECORDS / BATCH_SIZE`: enough pages to cover the target and no page more. |
| FetchClinics.SourceIsOnePage | src/main/java/com/medspace/infrastructure/client/ExternalClinicApiClient.java:131 | With the client's constants (`EXACT_RECORDS` = 100, `BATCH_SIZE` = 1000) the run has exactly one page. |
| FetchClinics.RunShape | src/main/java/com/medspace/infrastructure/client/ExternalClinicApiClient.java:186-231 | A failed first page ends the run with its error and nothing returned. After a successful first page the run continues at the next page, and its batch goes in front of the rest. |
| FetchClinics.RunSaves | src/main/java/com/medspace/infrastructure/client/ExternalClinicApiClient.java:185-234 | The returned list is the concatenation, in page order, of the batches `saveAll` stored, one per page. When the run throws for page k, `saveAll` returned exactly for the pages before k. |
| FetchClinics.RunStamps | src/main/java/com/medspace/infrastructure/client/ExternalClinicApiClient.java:179-185 | Every batch passed to a returning `saveAll` carries one creation instant throughout. |
| FetchClinics.RunRequests | src/main/java/com/medspace/infrastructure/client/ExternalClinicApiClient.java:133-231 | Pages are requested in non-decreasing order, one request per attempt, only up to the last page reached. Each page reached is requested at least once and at most `MAX_RETRIES` times, and the failing page exactly `MAX_RETRIES` times. |
| FetchClinics.RunSleeps | src/main/java/com/medspace/infrastructure/client/ExternalClinicApiClient.java:143-207 | Every sleep of a run lies between `min(2 * INITIAL_DELAY_MS, MAX_DELAY_MS)` and `MAX_DELAY_MS`. |
| FetchClinics.SourceBackoffs | src/main/java/com/medspace/infrastructure/client/ExternalClinicApiClient.java:34-36 | With the client's constants the delays run 2000, 4000, 8000, then are capped at 10000. |
| FetchClinics.SourceRun | src/main/java/com/medspace/infrastructure/client/ExternalClinicApiClient.java:127-235 | With the client's constants the run is its single page: same trace, same attempts, and the page's batch or error as result. |
| FetchClinics.RateLimitedTwiceThenOk | src/main/java/com/medspace/infrastructure/client/ExternalClinicApiClient.java:138-193 | After two 429/503 answers and a good page, the client requests page 1 three times and sleeps 4000 then 8000 ms. It saves the third answer's records, stamped once, and returns exactly them. |
| FetchClinics.AlwaysRateLimited | src/main/java/com/medspace/infrastructure/client/ExternalClinicApiClient.java:188-228 | Three 429/503 answers make the run throw for page 1 after sleeping 4000 and 8000 ms, with nothing saved. |
| FetchClinics.NotArrayIsRetried | src/main/java/com/medspace/infrastructure/client/ExternalClinicApiClient.java:161-211 | A 200 whose body is not an array is retried. Three of them in a row make the run throw for page 1 with that cause, after three attempts, with nothing saved. |
| FetchClinics.ThrowOnLastAttempt | src/main/java/com/medspace/infrastructure/client/ExternalClinicApiClient.java:203-211 | A transport exception on the last attempt is rethrown as the page's failure, even after rate-limited attempts. |
| ClinicRepository.Merge | src/main/java/com/medspace/infrastructure/repository/ClinicRepositoryImpl.java:162-177 | `displayName`, `category` and `description` take the patch value only when it is non-null. `pricePerDay` and `maxStayDays` take it only when it is positive. Every other column and child is left as it was. |
| ClinicRepository.UpdateClinic | src/main/java/com/medspace/infrastructure/repository/ClinicRepositoryImpl.java:156-181 | A missing id gives NotFound with the table unchanged. Otherwise exactly that row becomes the merged row and is returned. The key set stays the same. |
| ClinicRepository.UpdateIdempotent | src/main/java/com/medspace/infrastructure/repository/ClinicRepositoryImpl.java:156-181 | Applying the same patch twice has the effect of applying it once. |
| ClinicRepository.EmptyPatchIsIdentity | src/main/java/com/medspace/infrastructure/repository/ClinicRepositoryImpl.java:162-177 | A patch with null references and zero numbers changes nothing. |
| ClinicRepository.UpdateKeepsKeys | src/main/java/com/medspace/infrastructure/repository/ClinicRepositoryImpl.java:156-181 | Updating keeps every row stored under its own id. |
| ClinicRepository.DeleteClinicById | src/main/java/com/medspace/infrastructure/repository/ClinicRepositoryImpl.java:127-134 | Deletion succeeds exactly when the id is present. It then removes that row and keeps every other row. Otherwise it is NotFound for that id. |
| ClinicRepository.DeleteTwiceFails | src/main/java/com/medspace/infrastructure/repository/ClinicRepositoryImpl.java:127-134 | Deleting the same id a second time is NotFound. |
| ClinicRepository.DeleteKeepsKeys | src/main/java/com/medspace/infrastructure/repository/ClinicRepositoryImpl.java:127-134 | Deletion keeps every remaining row stored under its own id. |
| ClinicRepository.AssignClinicToUser | src/main/java/com/medspace/infrastructure/repository/ClinicRepositoryImpl.java:138-151 | A missing clinic gives NotFound before the user is checked, then a missing user gives NotFound. Both leave the table unchanged. On success, only the landlord of that clinic is set to the user. |
| ClinicRepository.AssignIdempotent | src/main/java/com/medspace/infrastructure/repository/ClinicRepositoryImpl.java:138-151 | Assigning the same clinic to the same user again changes nothing and gives the same answer. |
| ClinicRepository.AssignKeepsKeys | src/main/java/com/medspace/infrastructure/repository/ClinicRepositoryImpl.java:138-151 | Assignment keeps every row stored under its own id. |
| ClinicRepository.AssignReportsClinicFirst | src/main/java/com/medspace/infrastructure/repository/ClinicRepositoryImpl.java:139-147 | With both the clinic and the user missing, the error names the clinic. |
| ClinicRepository.Distinct | src/main/java/com/medspace/infrastructure/repository/ClinicRepositoryImpl.java:99 | `DISTINCT` keeps exactly the rows of its input, each once. |
| ClinicRepository.JoinedRowsPositive | src/main/java/com/medspace/infrastructure/repository/ClinicRepositoryImpl.java:73-97 | The joined query lets a clinic through at least once exactly when every supplied criterion holds for it. Each join needs some matching child. |
| ClinicRepository.JoinedMembers | src/main/java/com/medspace/infrastructure/repository/ClinicRepositoryImpl.java:73-99 | A row appears in the joined result before `DISTINCT` iff it is in the table and matches the search. |
| ClinicRepository.FilteredClinics | src/main/java/com/medspace/infrastructure/repository/ClinicRepositoryImpl.java:66-102 | The search returns a clinic iff it is in the table and meets every supplied criterion: the date within its window, some equipment in the list, some availability covering the hour, the same city. The result has no duplicates. |
| ClinicRepository.NoCriteriaReturnsAll | src/main/java/com/medspace/infrastructure/repository/ClinicRepositoryImpl.java:71-99 | A search with no criterion returns every row of the table. |
| ClinicRepository.CityNarrows | src/main/java/com/medspace/infrastructure/repository/ClinicRepositoryImpl.java:95-97 | Adding a city criterion can only narrow the result, to rows in that city. |
| CityKey.NormalizeCityShape | src/main/java/com/medspace/infrastructure/repository/ClinicRepositoryImpl.java:209-228 | The Java-side key has no whitespace left and is all lower case. |
| CityKey.NormalizeCityIdempotent | src/main/java/com/medspace/infrastructure/repository/ClinicRepositoryImpl.java:209-228 | Normalising a key again gives the same key. |
| CityKey.NormalizeCitySplit | src/main/java/com/medspace/infrastructure/repository/ClinicRepositoryImpl.java:209-228 | Every maximal whitespace run becomes one `_` wherever it stands, between words, at the start or at the end: cutting a city at such a run cuts its key at the matching `_`. Cities with several runs follow by applying this once per run. |
| CityKey.NormalizeCityRun | src/main/java/com/medspace/infrastructure/repository/ClinicRepositoryImpl.java:209-228 | A run of whitespace of any length and kind between two words becomes one `_`, and both words are lower-cased. |
| CityKey.KeysAgreeIff | src/main/java/com/medspace/infrastructure/repository/ClinicRepositoryImpl.java:208-232 | For a database whose `LOWER` folds like Java's `toLowerCase`, the Java key of a city equals the SQL key of the same city iff the city's only whitespace is single spaces. |
| CityKey.CountByCity | src/main/java/com/medspace/infrastructure/repository/ClinicRepositoryImpl.java:202-217 | The count never exceeds the number of rows. |
| CityKey.CountByCategoryAndCity | src/main/java/com/medspace/infrastructure/repository/ClinicRepositoryImpl.java:227-237 | The category-and-city count never exceeds the city count. |
| CityKey.DoubleSpaceNotCounted | src/main/java/com/medspace/infrastructure/repository/ClinicRepositoryImpl.java:208-232 | As written, a clinic stored in "San  Luis" is counted by neither query when it asks for "San  Luis". |
| CityKey.CountByCityFixed | src/main/java/com/medspace/infrastructure/repository/ClinicRepositoryImpl.java:202-217 | With the parameter keyed like the stored city, the count still never exceeds the number of rows. |
| CityKey.CountByCategoryAndCityFixed | src/main/java/com/medspace/infrastructure/repository/ClinicRepositoryImpl.java:227-237 | With one key on both sides, the category-and-city count never exceeds the city count. |
| CityKey.FixedCountsOwnCity | src/main/java/com/medspace/infrastructure/repository/ClinicRepositoryImpl.java:202-217 | With one key on both sides, every clinic is counted when its own city is asked for, whatever its spacing. |
| CityKey.FixedCategoryCountsOwnCity | src/main/java/com/medspace/infrastructure/repository/ClinicRepositoryImpl.java:227-237 | With one key on both sides, every clinic is counted when its own category and city are asked for. |
| CityKey.FixedAgreesWhenSingleSpaced | src/main/java/com/medspace/infrastructure/repository/ClinicRepositoryImpl.java:202-217 | On single-spaced parameters the corrected count equals the count as written. |
| CityKey.FixedCategoryAgreesWhenSingleSpaced | src/main/java/com/medspace/infrastructure/repository/ClinicRepositoryImpl.java:227-237 | On single-spaced parameters the category-and-city count as written equals the corrected one. |
| CreateUser.ValueOf | src/main/java/com/medspace/infrastructure/dto/user/CreateUserDTO.java:70 | `valueOf` returns only a constant whose name is exactly the given string. |
| CreateUser.ValueOfName | src/main/java/com/medspace/infrastructure/dto/user/CreateUserDTO.java:70 | Every constant is found under its own name. |
| CreateUser.UserTypePatternText | src/main/java/com/medspace/infrastructure/dto/user/CreateUserDTO.java:50 | The annotation's regular expression is the alternation of `" LANDLORD"`, `"TENANT"` and `"ANALYST"`. |
| CreateUser.LandlordRejected | src/main/java/com/medspace/infrastructure/dto/user/CreateUserDTO.java:47-52 | As written, `"LANDLORD"` fails the full match and `" LANDLORD"` passes it. |
| CreateUser.FixedUserTypeAccepted | src/main/java/com/medspace/infrastructure/dto/user/CreateUserDTO.java:47-52 | Without the stray space, the pattern accepts a value iff it is the name of a user type. |
| CreateUser.Trim | src/main/java/com/medspace/infrastructure/dto/user/CreateUserDTO.java:70 | A trimmed string neither starts nor ends with a character at or below the space. |
| CreateUser.TrimIdempotent | src/main/java/com/medspace/infrastructure/dto/user/CreateUserDTO.java:70 | Trimming twice is trimming once. |
| CreateUser.TrimIsInfix | src/main/java/com/medspace/infrastructure/dto/user/CreateUserDTO.java:70 | `trim` keeps one contiguous piece of the string and drops only characters at or below the space before and after it. |
| CreateUser.ToUser | src/main/java/com/medspace/infrastructure/dto/user/CreateUserDTO.java:65-80 | A null `userType` throws. Otherwise conversion succeeds iff the trimmed value names a user type, and it then copies name, email and phone and sets that type. Every other field stays null. A specialty with the given id is attached iff an id came and the type is TENANT. |
| CreateUser.AcceptedConverts | src/main/java/com/medspace/infrastructure/dto/user/CreateUserDTO.java:50-70 | Every value the pattern as written accepts converts, to the constant its trimmed form names. |
| CreateUser.FixedAcceptedConverts | src/main/java/com/medspace/infrastructure/dto/user/CreateUserDTO.java:50-70 | With the corrected pattern, every constant's name is accepted and converts to that constant. |
| CreateUser.NoSpecialtyUnlessTenant | src/main/java/com/medspace/infrastructure/dto/user/CreateUserDTO.java:73-77 | Landlords and analysts never get a tenant specialty, even when an id is supplied. |
| ClinicPhotos.ValidatePhotoOwnership | src/main/java/com/medspace/application/service/ClinicPhotoService.java:42-52 | A null argument or an unknown photo gives false. A photo without a clinic, or whose clinic has no id, throws. Otherwise the answer is true iff the photo's clinic id is the one asked about. |
| ClinicPhotos.CreatePhoto | src/main/java/com/medspace/application/service/ClinicPhotoService.java:16-20 | The returned photo is the given one with `createdAt` set to now and the new id, and it is what the store now holds under that id. |
| ClinicPhotos.CreateKeepsStore | src/main/java/com/medspace/application/service/ClinicPhotoService.java:16-20 | Creating a photo adds exactly its id, keeps the store well keyed and leaves every other photo as it was. |
| ClinicPhotos.CreatedPhotoIsOwned | src/main/java/com/medspace/application/service/ClinicPhotoService.java:16-52 | A photo created for a clinic is owned by that clinic and by no other. |
| ClinicPhotos.CreateKeepsOwnership | src/main/java/com/medspace/application/service/ClinicPhotoService.java:16-52 | Creating a photo changes no other photo's ownership answer. |

## Left out

- HTTP transport (`createConnection`, headers, timeouts, redirects) and `readErrorResponse`: an attempt is one scripted outcome. The error body only decorates an exception message, which the model does not keep.
- Jackson decoding and `ExternalClinicResponseMapper`, which is not part of this model: a 200 body is either "not an array" or an already-mapped list of records. A decode error inside the array is not distinguished from a transport error; both reach the generic `catch`.
- Decimal.IntToString: renders ASCII digits only. `String.format("%d")` uses the default locale's digits, which differ from ASCII in a few locales; the locale is not modelled.
- `Thread.sleep`, its swallowed interrupt, and logging. Sleeps are recorded as events, not performed.
- `Instant.now()` is the `clock` parameter, indexed by attempt.
- `@Transactional` rollback of `fetchClinics`. The trace records which `saveAll` calls returned. It does not model that a thrown run rolls those saves back.
- The client constants are generalised to a `Config` value. `SourceConfig` holds the client's values, and the scenario lemmas use them.
- `Math.ceil` over doubles in the page count is modelled as integer ceiling division. The two agree for these non-negative integer operands.
- `long delay` overflow cannot happen: the delay is capped at `MAX_DELAY_MS`.
- `UnsupportedEncodingException` in `buildUrl` cannot arise for UTF-8, so the branch has no counterpart. `'/'` in the token is excluded by the URL round-trip lemmas only, because a token holding `/` would add path segments.
- JPA, Panache, the Criteria API and `EntityManager`: a table is a map from id to row, or a sequence of rows for queries. The row order of a query result is the scan order of that sequence. SQL gives no order, so no lemma depends on it.
- `ClinicMapper.toDomain`: the repository functions return the entity row, not its domain copy.
- Null arguments are not modelled: ids are `int`, the city is a `string` and a category is always present. In Java:
  - a null city parameter throws `NullPointerException` at `city.toLowerCase()` (ClinicRepositoryImpl.java:209 and :228);
  - a null id reaches `findById`, whose `EntityManager.find` throws `IllegalArgumentException` (ClinicRepositoryImpl.java:128, :139 and :157);
  - a null category in `getByCategoryAndCity` compares `= NULL` in SQL, so the count is 0 and nothing is thrown (ClinicRepositoryImpl.java:232).
- `getFilteredClinics` with an empty equipment list is modelled as matching no equipment row, so no clinic. SQL dialect details beyond that are not modelled.
- `double pricePerDay` is a `real`. Dates and times of day are integers ordered as the dates and times they stand for.
- `String.toLowerCase` is modelled on Latin-1 only, without locale rules. Characters outside Latin-1 are left unchanged.
- DbCityKey: the SQL `LOWER` is assumed to fold exactly like Java's `toLowerCase`, with the same Latin-1 `Lower`. The database's real folding depends on its collation; PostgreSQL under the C locale folds ASCII only, so "Ávila" would get different keys on the two sides. KeysAgreeIff, FixedAgreesWhenSingleSpaced and FixedCategoryAgreesWhenSingleSpaced rest on this assumption.
- The `@Pattern` check is modelled only for regular expressions made of literal alternatives, which is the form of the one used. The regular expression is given as its list of alternatives.
- `CreateUserDTO`'s stream fields (`profilePhoto`, `tenantProfessionalLicense`) are not read by `toUser` and are omitted. `TenantSpecialty` is modelled by its id only.
- `ClinicPhotoRepository` is not part of this model. Its `insertPhoto` is modelled as storing the photo under a fresh id that the caller supplies, and `getPhotoById` as a map lookup. Photo fields other than id, clinic and `createdAt` are carried as one opaque value.
- CityKey.CountByCity: its own contract only bounds the count. What the count means is stated by `DoubleSpaceNotCounted` and `KeysAgreeIff`, and by the corrected versions' lemmas.
- CityKey.CountByCategoryAndCity: its own contract only bounds the count by the city count. What the count means is stated by `DoubleSpaceNotCounted` and `KeysAgreeIff`, and by `FixedCategoryAgreesWhenSingleSpaced`, which equates it with `CountByCategoryAndCityFixed` on single-spaced cities.

## Findings

| source | as written | input that shows it | evidently intended | confidence | as-written member | corrected member |
|---|---|---|---|---|---|---|
| src/main/java/com/medspace/infrastructure/dto/user/CreateUserDTO.java:50 | `@Pattern(regexp = " LANDLORD\|TENANT\|ANALYST")` has a leading space in its first alternative. | `userType = "LANDLORD"` fails validation, while `" LANDLORD"` passes. | Accept exactly the three constant names. | not executed | CreateUser.LandlordRejected | CreateUser.FixedUserTypeAccepted |
| src/main/java/com/medspace/infrastructure/repository/ClinicRepositoryImpl.java:208-232 | The stored city is keyed with `REPLACE(city, ' ', '_')`, which replaces each single space, while the parameter collapses every whitespace run with `replaceAll("\\s+", "_")`. | A clinic stored in `"San  Luis"` (two spaces) is not counted for `"San  Luis"`. | Key both sides the same way, so that every clinic is counted under its own city. | not executed | CityKey.DoubleSpaceNotCounted | CityKey.FixedCountsOwnCity |
