/**
 * One constructor per distinct error the services raise (each is one
 * error message in the TypeScript services; a text raised from several
 * places is one constructor), plus the store's own failure when a row to
 * update or delete is missing.
 */
module Errors {

  datatype Error =
    // InsuranceService
    | PolicyFieldsRequired    // client, policy number and coverage are required
    | DatesRequired           // start and end dates are required
    | EndNotAfterStart        // the end date must come after the start date
    | PolicyNumberInUse       // the policy number is already in use
    | PolicyNotFound          // the policy was not found
    | PolicyAlreadyCanceled   // the policy is already canceled
    | PolicyNumberRequired    // the policy number must not be blank
    | CoverageRequired        // the coverage must not be blank
    // ClientService
    | NameRequired            // the name is required (create)
    | NameEmpty               // the name must not be blank (update, validator)
    | ClientNotFound          // the client was not found
    // ClientService, UserService
    | EmailInUse              // the e-mail is already in use
    // ClientService, AuthService
    | InvalidEmail            // the e-mail has the wrong shape
    // UserService, AuthService
    | EmailAndPasswordRequired
    // UserService
    | UserNotFound
    // AuthService
    | InvalidCredentials      // unknown e-mail or wrong password, deliberately one error
    | InvalidToken
    | PasswordTooShort        // the password must have at least 6 characters
    // the store: update or delete of an id that has no row
    | RecordNotFound
}
