TestResult.DisplayName,TestResult.Outcome,TestResult.Duration,TestResult.ResourceCount,RandomSeed
LegacyHyper.Respond (well-formedness),Failed,00:00:00.8093612,2100648,2
LegacyHyper.Responds (well-formedness),Passed,00:00:00.1069585,39624,2
