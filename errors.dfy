/**
 * The exceptions of the shell library as one error type. Every constructor
 * stands for one `throw` site; `Message` is the text the exception carries.
 */
module Errors {
  import opened Php

  datatype CliError =
    // ArgumentParser::getArguments on a non-string; carries gettype()
    | InvalidArgumentString(typeName: string)
    // CommandArgument setters
    | InvalidArgumentName
    | InvalidArgumentDescription
    | InvalidRequiredFlag
    | InvalidDynamicFlag
    // AbstractCommand setters and addArgument
    | InvalidCommandName
    | InvalidCommandDescription
    | ArgumentAfterDynamic
    | RequiredAfterOptional
    // CommandContainer lookups
    | InvalidLookupName
    | CommandNotAdded(name: string)
    // CommandInput
    | NoArgumentAtIndex(index: Key)
    | NoInputToCheck
    | NoInputToRead
    // CommandInterpreter
    | CommandNotFound(command: string)
    | ArgumentNotSet(argument: string)
    | InvalidArgumentCount
    | InvalidFlag(flag: string)

  /** How PHP prints an array key when it is concatenated into a string. */
  function KeyText(k: Key): string
  {
    match k
    case Index(i) => IntToString(i)
    case Name(s) => s
  }

  /** The message of the exception. */
  function Message(e: CliError): string
  {
    match e
    case InvalidArgumentString(t) => "Could not get the arguments: provided string is invalid (" + t + ")"
    case InvalidArgumentName => "Could not set the name of the command argument: provided name is empty or invalid"
    case InvalidArgumentDescription => "Could not set the description of the command argument: provided description is empty or invalid"
    case InvalidRequiredFlag => "Could not set the required flag of the command argument: provided flag is invalid"
    case InvalidDynamicFlag => "Could not set the dynamic flag of the command argument: provided flag is invalid"
    case InvalidCommandName => "Provided name is empty or invalid"
    case InvalidCommandDescription => "Provided description is empty or invalid"
    case ArgumentAfterDynamic => "Cannot add a argument after a dynamic argument"
    case RequiredAfterOptional => "Cannot add a required argument after a optional argument"
    case InvalidLookupName => "Could not check availability of command: provided name is invalid or empty"
    case CommandNotAdded(name) => "Could not get command " + name + ": command not added to the container"
    case NoArgumentAtIndex(index) => "No argument set at index " + KeyText(index)
    case NoInputToCheck => "Could not check if input is interactive: no input set to wrap around"
    case NoInputToRead => "Could not read from input: no input set to wrap around"
    case CommandNotFound(command) => "Command not found: " + command
    case ArgumentNotSet(argument) => "No " + argument + " provided"
    case InvalidArgumentCount => "Invalid argument count"
    case InvalidFlag(flag) => "Flag " + flag + " is not available"
  }
}
