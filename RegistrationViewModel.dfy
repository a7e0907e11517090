/** The per-field state of the registration screen's view model.

    The view model keeps the four text fields the screen writes into, and
    every write re-runs one validator and publishes its outcome on a
    subject. Here each write is a setter method, and what it publishes is
    returned as the sequence of emissions, in order. */
module Registration {
  import opened CharacterSets
  import ValidationService

  type NameValidationError = ValidationService.NameValidationError
  type EmailValidationError = ValidationService.EmailValidationError
  type PasswordValidationError = ValidationService.PasswordValidationError

  /** One value sent on one of the view model's subjects. */
  datatype Emission =
    | NameIsValid(name: NameValidationError)
    | EmailIsValid(email: EmailValidationError)
    | PasswordValid(password: PasswordValidationError)
    | ConfirmIsValid(matches: bool)

  class RegistrationViewModel {
    /** The platform Unicode tables the validation service consults. */
    const tables: UnicodeTables

    var name: string
    var email: string
    var password: string
    var confirmPassword: string

    /** All four fields start empty. */
    constructor (tables: UnicodeTables)
      ensures this.tables == tables
      ensures name == "" && email == "" && password == "" && confirmPassword == ""
    {
      this.tables := tables;
      name := "";
      email := "";
      password := "";
      confirmPassword := "";
    }

    /** Writing the name stores it and publishes the outcome the validation
        service gives for it. */
    method SetName(v: string) returns (emitted: seq<Emission>)
      modifies this`name
      ensures name == v
      ensures emitted == [NameIsValid(ValidationService.ValidateName(tables, v))]
    {
      emitted := [NameIsValid(ValidationService.ValidateName(tables, v))];
      name := v;
    }

    /** Writing the email stores it and publishes the outcome the
        validation service gives for it. */
    method SetEmail(v: string) returns (emitted: seq<Emission>)
      modifies this`email
      ensures email == v
      ensures emitted == [EmailIsValid(ValidationService.ValidateEmail(v))]
    {
      emitted := [EmailIsValid(ValidationService.ValidateEmail(v))];
      email := v;
    }

    /** Writing the password stores it and publishes its validation
        outcome; the confirmation is not compared again. */
    method SetPassword(v: string) returns (emitted: seq<Emission>)
      modifies this`password
      ensures password == v
      ensures emitted == [PasswordValid(ValidationService.ValidatePassword(tables, v))]
    {
      emitted := [PasswordValid(ValidationService.ValidatePassword(tables, v))];
      password := v;
    }

    /** Writing the confirmation stores it and publishes, in this order, the
        validation outcome of the stored password and whether the stored
        password equals the new confirmation under Swift's string equality. */
    method SetConfirmPassword(v: string) returns (emitted: seq<Emission>)
      modifies this`confirmPassword
      ensures confirmPassword == v
      ensures emitted == [PasswordValid(ValidationService.ValidatePassword(tables, password)),
                          ConfirmIsValid(tables.stringsEqual(password, v))]
    {
      var result := ValidationService.ValidatePassword(tables, password);
      emitted := [PasswordValid(result), ConfirmIsValid(tables.stringsEqual(password, v))];
      confirmPassword := v;
    }
  }

  /** A confirmation that once matched is not compared again when the
      password changes: the last published comparison stays `true` while the
      two fields differ. String equality does not fold case, so a
      confirmation that differs only in case is reported as not matching. */
  method StaleConfirmation(tables: UnicodeTables)
    returns (lastReported: bool, afterChange: seq<Emission>, fieldsEqual: bool, caseVariantMatches: bool)
    requires Consistent(tables)
    ensures lastReported && !fieldsEqual
    ensures forall k :: 0 <= k < |afterChange| ==> !afterChange[k].ConfirmIsValid?
    ensures !caseVariantMatches
  {
    var first, second, variant := "secret1", "secret2", "Secret2";
    assert first[6] != second[6] && second[0] != variant[0];
    AsciiStringsEqual(tables, second, first);
    AsciiStringsEqual(tables, second, variant);
    var vm := new RegistrationViewModel(tables);
    var _ := vm.SetPassword(first);
    var confirmed := vm.SetConfirmPassword(first);
    lastReported := confirmed[1].matches;
    afterChange := vm.SetPassword(second);
    fieldsEqual := tables.stringsEqual(vm.password, vm.confirmPassword);
    var caseVariant := vm.SetConfirmPassword(variant);
    caseVariantMatches := caseVariant[1].matches;
  }
}
